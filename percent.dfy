/** `urllib.parse.unquote` with its defaults (UTF-8, errors replaced by U+FFFD),
    as `file_url_to_path_win` uses it (main.py, line 19). */
module Percent {
  type Byte = x: int | 0 <= x < 256

  const Replacement: char := '\U{FFFD}'

  predicate IsAscii(c: char)
  {
    c as int < 0x80
  }

  predicate AllAscii(b: seq<Byte>)
  {
    forall i :: 0 <= i < |b| ==> b[i] < 0x80
  }

  predicate IsHex(c: char)
  {
    '0' <= c <= '9' || 'a' <= c <= 'f' || 'A' <= c <= 'F'
  }

  function HexVal(c: char): (r: nat)
    requires IsHex(c)
    ensures r < 16
  {
    if '0' <= c <= '9' then c as int - '0' as int
    else if 'a' <= c <= 'f' then c as int - 'a' as int + 10
    else c as int - 'A' as int + 10
  }

  /** The upper-case hexadecimal digit of a value below 16. */
  function HexDigit(v: nat): (r: char)
    requires v < 16
    ensures IsHex(r) && HexVal(r) == v
  {
    if v < 10 then ('0' as int + v) as char else ('A' as int + v - 10) as char
  }

  predicate IsCont(b: Byte)
  {
    0x80 <= b < 0xC0
  }

  /** The allowed range of the second byte of a three- or four-byte sequence:
      overlong forms (after E0 and F0), surrogates (after ED) and values beyond
      U+10FFFF (after F4) are excluded. */
  function SecondLo(b0: Byte): Byte
  {
    if b0 == 0xE0 then 0xA0 else if b0 == 0xF0 then 0x90 else 0x80
  }

  function SecondHi(b0: Byte): Byte
  {
    if b0 == 0xED then 0x9F else if b0 == 0xF4 then 0x8F else 0xBF
  }

  /** One step of Python's UTF-8 decoder with `errors="replace"`: the next character
      and the number of bytes it takes. A malformed sequence is replaced by one
      U+FFFD per maximal valid prefix, so a byte that cannot continue the sequence
      is never swallowed. */
  function DecodeStep(b: seq<Byte>): (r: (char, nat))
    requires b != []
    ensures 1 <= r.1 <= |b|
    ensures b[0] < 0x80 ==> r == (b[0] as char, 1)
  {
    var b0: int := b[0];
    if b0 < 0x80 then (b0 as char, 1)
    else if 0xC2 <= b0 <= 0xDF then
      if |b| >= 2 && IsCont(b[1]) then (Value2(b0, b[1]) as char, 2)
      else (Replacement, 1)
    else if 0xE0 <= b0 <= 0xEF then
      if |b| >= 2 && SecondLo(b0) <= b[1] <= SecondHi(b0) then
        if |b| >= 3 && IsCont(b[2]) then (Value3(b0, b[1], b[2]) as char, 3)
        else (Replacement, 2)
      else (Replacement, 1)
    else if 0xF0 <= b0 <= 0xF4 then
      if |b| >= 2 && SecondLo(b0) <= b[1] <= SecondHi(b0) then
        if |b| >= 3 && IsCont(b[2]) then
          if |b| >= 4 && IsCont(b[3]) then (Value4(b0, b[1], b[2], b[3]) as char, 4)
          else (Replacement, 3)
        else (Replacement, 2)
      else (Replacement, 1)
    else (Replacement, 1)
  }

  /** The scalar values of well-formed two-, three- and four-byte sequences. */
  function Value2(b0: int, b1: int): (v: int)
    requires 0xC2 <= b0 <= 0xDF && 0x80 <= b1 < 0xC0
    ensures 0x80 <= v < 0x800
  {
    (b0 - 0xC0) * 64 + (b1 - 0x80)
  }

  function Value3(b0: int, b1: int, b2: int): (v: int)
    requires 0xE0 <= b0 <= 0xEF && SecondLo(b0) <= b1 <= SecondHi(b0) && 0x80 <= b2 < 0xC0
    ensures 0x800 <= v < 0xD800 || 0xE000 <= v < 0x10000
  {
    (b0 - 0xE0) * 4096 + (b1 - 0x80) * 64 + (b2 - 0x80)
  }

  function Value4(b0: int, b1: int, b2: int, b3: int): (v: int)
    requires 0xF0 <= b0 <= 0xF4 && SecondLo(b0) <= b1 <= SecondHi(b0)
    requires 0x80 <= b2 < 0xC0 && 0x80 <= b3 < 0xC0
    ensures 0x10000 <= v < 0x110000
  {
    (b0 - 0xF0) * 262144 + (b1 - 0x80) * 4096 + (b2 - 0x80) * 64 + (b3 - 0x80)
  }

  /** `bytes.decode("utf-8", "replace")`. */
  function DecodeUtf8(b: seq<Byte>): (r: string)
    ensures |r| <= |b|
    decreases |b|
  {
    if b == [] then []
    else
      var step := DecodeStep(b);
      [step.0] + DecodeUtf8(b[step.1..])
  }

  /** The UTF-8 encoding of one character. */
  function EncodeChar(c: char): (r: seq<Byte>)
    ensures 1 <= |r| <= 4
    ensures (|r| == 1) == IsAscii(c)
  {
    var n := c as int;
    if n < 0x80 then [n]
    else if n < 0x800 then [0xC0 + n / 64, 0x80 + n % 64]
    else if n < 0x10000 then [0xE0 + n / 4096, 0x80 + (n / 64) % 64, 0x80 + n % 64]
    else [0xF0 + n / 262144, 0x80 + (n / 4096) % 64, 0x80 + (n / 64) % 64, 0x80 + n % 64]
  }

  /** `str.encode("utf-8")`. */
  function EncodeUtf8(s: string): (r: seq<Byte>)
    ensures |s| <= |r| <= 4 * |s|
  {
    if s == [] then [] else EncodeChar(s[0]) + EncodeUtf8(s[1..])
  }

  /** The decoder reads back exactly the character the encoder wrote, whatever follows. */
  lemma DecodeStepEncodeChar(c: char, rest: seq<Byte>)
    ensures DecodeStep(EncodeChar(c) + rest) == (c, |EncodeChar(c)|)
  {
    var n := c as int;
    if n < 0x80 {
    } else if n < 0x800 {
      DecodeTwo(c, rest);
    } else if n < 0x10000 {
      DecodeThree(c, rest);
    } else {
      DecodeFour(c, rest);
    }
  }

  lemma DecodeTwo(c: char, rest: seq<Byte>)
    requires 0x80 <= c as int < 0x800
    ensures DecodeStep(EncodeChar(c) + rest) == (c, |EncodeChar(c)|)
  {
    var n := c as int;
    var b := EncodeChar(c) + rest;
    Encode2(n);
    assert b[0] == 0xC0 + n / 64 && b[1] == 0x80 + n % 64;
  }

  lemma DecodeThree(c: char, rest: seq<Byte>)
    requires 0x800 <= c as int < 0x10000
    ensures DecodeStep(EncodeChar(c) + rest) == (c, |EncodeChar(c)|)
  {
    var n := c as int;
    var b := EncodeChar(c) + rest;
    Encode3(n);
    assert b[0] == 0xE0 + n / 4096 && b[1] == 0x80 + (n / 64) % 64 && b[2] == 0x80 + n % 64;
  }

  lemma DecodeFour(c: char, rest: seq<Byte>)
    requires 0x10000 <= c as int
    ensures DecodeStep(EncodeChar(c) + rest) == (c, |EncodeChar(c)|)
  {
    var n := c as int;
    var b := EncodeChar(c) + rest;
    Encode4(n);
    assert b[0] == 0xF0 + n / 262144 && b[1] == 0x80 + (n / 4096) % 64;
    assert b[2] == 0x80 + (n / 64) % 64 && b[3] == 0x80 + n % 64;
  }

  lemma Encode2(n: int)
    requires 0x80 <= n < 0x800
    ensures 0xC2 <= 0xC0 + n / 64 <= 0xDF && Value2(0xC0 + n / 64, 0x80 + n % 64) == n
  {
  }

  lemma Encode3(n: int)
    requires 0x800 <= n < 0xD800 || 0xE000 <= n < 0x10000
    ensures var b0, b1 := 0xE0 + n / 4096, 0x80 + (n / 64) % 64;
            && 0xE0 <= b0 <= 0xEF && SecondLo(b0) <= b1 <= SecondHi(b0)
            && Value3(b0, b1, 0x80 + n % 64) == n
  {
    var q2, q1, q0 := n / 4096, (n / 64) % 64, n % 64;
    assert n / 64 == q2 * 64 + q1;
    assert n == q2 * 4096 + q1 * 64 + q0;
  }

  lemma Encode4(n: int)
    requires 0x10000 <= n < 0x110000
    ensures var b0, b1 := 0xF0 + n / 262144, 0x80 + (n / 4096) % 64;
            && 0xF0 <= b0 <= 0xF4 && SecondLo(b0) <= b1 <= SecondHi(b0)
            && Value4(b0, b1, 0x80 + (n / 64) % 64, 0x80 + n % 64) == n
  {
    var q3, q2, q1, q0 := n / 262144, (n / 4096) % 64, (n / 64) % 64, n % 64;
    assert n / 4096 == q3 * 64 + q2;
    assert n / 64 == (n / 4096) * 64 + q1;
    assert n == q3 * 262144 + q2 * 4096 + q1 * 64 + q0;
  }

  /** Decoding undoes encoding. */
  lemma {:induction false} DecodeEncode(s: string)
    ensures DecodeUtf8(EncodeUtf8(s)) == s
  {
    if s != [] {
      var e := EncodeChar(s[0]);
      DecodeStepEncodeChar(s[0], EncodeUtf8(s[1..]));
      assert (e + EncodeUtf8(s[1..]))[|e|..] == EncodeUtf8(s[1..]);
      DecodeEncode(s[1..]);
    }
  }

  /** ASCII bytes decode one character each, independently of what follows. */
  lemma {:induction false} DecodeAsciiPrefix(p: seq<Byte>, q: seq<Byte>)
    requires AllAscii(p)
    ensures DecodeUtf8(p + q) == DecodeUtf8(p) + DecodeUtf8(q)
    decreases |p|
  {
    if p == [] {
      assert p + q == q;
    } else {
      var pq := p + q;
      assert pq[0] == p[0] && pq[1..] == p[1..] + q;
      assert AllAscii(p[1..]) by {
        forall i | 0 <= i < |p[1..]| ensures p[1..][i] < 0x80 {
          assert p[1..][i] == p[i + 1];
        }
      }
      DecodeAsciiPrefix(p[1..], q);
      DecodeAsciiHead(pq);
      DecodeAsciiHead(p);
    }
  }

  lemma DecodeAsciiHead(b: seq<Byte>)
    requires b != [] && b[0] < 0x80
    ensures DecodeUtf8(b) == [b[0] as char] + DecodeUtf8(b[1..])
  {
  }

  /** One ASCII byte decodes to its character. */
  lemma DecodeAsciiByte(c: char)
    requires IsAscii(c)
    ensures DecodeUtf8([c as int]) == [c]
  {
    var b: seq<Byte> := [c as int];
    assert b[1..] == [];
  }

  /** The scan behind `unquote`: `%XX` escapes and ASCII characters are collected as
      bytes and decoded together when the ASCII run ends; a character outside ASCII
      ends the run and is copied unchanged. A `%` that does not start an escape is
      kept as it is. */
  function UnquoteFrom(s: string, pend: seq<Byte>): string
    decreases |s|
  {
    if s == [] then DecodeUtf8(pend)
    else if s[0] == '%' && |s| >= 3 && IsHex(s[1]) && IsHex(s[2]) then
      UnquoteFrom(s[3..], pend + [HexVal(s[1]) * 16 + HexVal(s[2])])
    else if IsAscii(s[0]) then UnquoteFrom(s[1..], pend + [s[0] as int])
    else DecodeUtf8(pend) + [s[0]] + UnquoteFrom(s[1..], [])
  }

  /** `unquote(s)`: a string without `%` is returned as it is. */
  function Unquote(s: string): string
  {
    if '%' !in s then s else UnquoteFrom(s, [])
  }

  /** Bytes already collected from ASCII characters come out first, unchanged. */
  lemma {:induction false} UnquoteAsciiPending(t: string, p: seq<Byte>, q: seq<Byte>)
    requires AllAscii(p)
    ensures UnquoteFrom(t, p + q) == DecodeUtf8(p) + UnquoteFrom(t, q)
    decreases |t|
  {
    if t == [] {
      DecodeAsciiPrefix(p, q);
    } else if t[0] == '%' && |t| >= 3 && IsHex(t[1]) && IsHex(t[2]) {
      var x: Byte := HexVal(t[1]) * 16 + HexVal(t[2]);
      assert p + q + [x] == p + (q + [x]);
      UnquoteAsciiPending(t[3..], p, q + [x]);
    } else if IsAscii(t[0]) {
      var x: Byte := t[0] as int;
      assert p + q + [x] == p + (q + [x]);
      UnquoteAsciiPending(t[1..], p, q + [x]);
    } else {
      DecodeAsciiPrefix(p, q);
    }
  }

  /** Without `%`, the scan is the identity. */
  lemma {:induction false} UnquoteFromNoPercent(s: string)
    requires '%' !in s
    ensures UnquoteFrom(s, []) == s
  {
    if s != [] {
      assert '%' !in s[1..] by {
        forall i | 0 <= i < |s[1..]| ensures s[1..][i] != '%' {
          assert s[1..][i] == s[i + 1];
        }
      }
      UnquoteFromNoPercent(s[1..]);
      assert s[0] in s;
      if IsAscii(s[0]) {
        var b: seq<Byte> := [s[0] as int];
        assert [] + b == b && b + [] == b;
        assert UnquoteFrom(s, []) == UnquoteFrom(s[1..], b);
        UnquoteAsciiPending(s[1..], b, []);
        DecodeAsciiByte(s[0]);
      }
    }
  }

  /** The shortcut for strings without `%` agrees with the scan. */
  lemma UnquoteIsScan(s: string)
    ensures Unquote(s) == UnquoteFrom(s, [])
  {
    if '%' !in s {
      UnquoteFromNoPercent(s);
    }
  }

  /** A prefix of ASCII characters without `%` is left alone by `unquote`. */
  lemma UnquotePlainPrefix(a: string, b: string)
    requires '%' !in a && forall i :: 0 <= i < |a| ==> IsAscii(a[i])
    ensures Unquote(a + b) == a + Unquote(b)
  {
    UnquoteIsScan(a + b);
    UnquoteIsScan(b);
    UnquotePlainScan(a, b, []);
  }

  lemma {:induction false} UnquotePlainScan(a: string, b: string, pend: seq<Byte>)
    requires '%' !in a && forall i :: 0 <= i < |a| ==> IsAscii(a[i])
    requires AllAscii(pend)
    ensures UnquoteFrom(a + b, pend) == DecodeUtf8(pend) + a + UnquoteFrom(b, [])
    decreases |a|
  {
    if a == [] {
      assert a + b == b;
      UnquoteAsciiPending(b, pend, []);
      assert pend + [] == pend;
    } else {
      PlainTail(a);
      PlainStep(a, b, pend);
      UnquotePlainScan(a[1..], b, pend + [a[0] as int]);
      PendingAscii(pend, a[0]);
      AppendShift(DecodeUtf8(pend), a, UnquoteFrom(b, []));
    }
  }

  lemma AppendShift(d: string, a: string, u: string)
    requires a != []
    ensures d + [a[0]] + a[1..] + u == d + a + u
  {
    assert a == [a[0]] + a[1..];
  }

  lemma PlainTail(a: string)
    requires a != [] && '%' !in a && forall i :: 0 <= i < |a| ==> IsAscii(a[i])
    ensures a[0] != '%' && IsAscii(a[0])
    ensures '%' !in a[1..] && forall i :: 0 <= i < |a[1..]| ==> IsAscii(a[1..][i])
  {
    assert a[0] in a;
    forall i | 0 <= i < |a[1..]|
      ensures a[1..][i] != '%' && IsAscii(a[1..][i])
    {
      assert a[1..][i] == a[i + 1];
    }
  }

  lemma PlainStep(a: string, b: string, pend: seq<Byte>)
    requires a != [] && a[0] != '%' && IsAscii(a[0])
    ensures UnquoteFrom(a + b, pend) == UnquoteFrom(a[1..] + b, pend + [a[0] as int])
  {
    assert (a + b)[0] == a[0] && (a + b)[1..] == a[1..] + b;
  }

  lemma PendingAscii(pend: seq<Byte>, c: char)
    requires AllAscii(pend) && IsAscii(c)
    ensures DecodeUtf8(pend + [c as int]) == DecodeUtf8(pend) + [c]
  {
    DecodeAsciiPrefix(pend, [c as int]);
    DecodeAsciiByte(c);
  }

  /** The characters that `PercentEncode` leaves alone. */
  predicate Unreserved(c: char)
  {
    'a' <= c <= 'z' || 'A' <= c <= 'Z' || '0' <= c <= '9' || c == '-' || c == '.' || c == '_' || c == '~'
  }

  /** `%XX` for each byte, upper-case hexadecimal. */
  function PercentBytes(b: seq<Byte>): (r: string)
    ensures |r| == 3 * |b|
  {
    if b == [] then [] else ['%', HexDigit(b[0] / 16), HexDigit(b[0] % 16)] + PercentBytes(b[1..])
  }

  /** Percent-encoding with no safe characters besides the unreserved ones, the form
      in which file URLs carry reserved and non-ASCII characters. */
  function PercentEncode(s: string): (r: string)
    ensures |s| <= |r|
  {
    if s == [] then []
    else if Unreserved(s[0]) then [s[0]] + PercentEncode(s[1..])
    else PercentBytes(EncodeChar(s[0])) + PercentEncode(s[1..])
  }

  /** Encoded text consists of unreserved characters and '%' only. */
  lemma {:induction false} PercentEncodeAlphabet(s: string)
    ensures forall i :: 0 <= i < |PercentEncode(s)| ==> Unreserved(PercentEncode(s)[i]) || PercentEncode(s)[i] == '%'
  {
    if s != [] {
      PercentEncodeAlphabet(s[1..]);
      var head := if Unreserved(s[0]) then [s[0]] else PercentBytes(EncodeChar(s[0]));
      PercentBytesAlphabet(EncodeChar(s[0]));
      assert PercentEncode(s) == head + PercentEncode(s[1..]);
    }
  }

  lemma {:induction false} PercentBytesAlphabet(b: seq<Byte>)
    ensures forall i :: 0 <= i < |PercentBytes(b)| ==> Unreserved(PercentBytes(b)[i]) || PercentBytes(b)[i] == '%'
  {
    if b != [] {
      PercentBytesAlphabet(b[1..]);
    }
  }

  lemma {:induction false} UnquotePercentBytes(b: seq<Byte>, rest: string, pend: seq<Byte>)
    ensures UnquoteFrom(PercentBytes(b) + rest, pend) == UnquoteFrom(rest, pend + b)
  {
    if b == [] {
      assert PercentBytes(b) + rest == rest;
      assert pend + b == pend;
    } else {
      var tail := PercentBytes(b[1..]) + rest;
      PercentBytesCons(b, rest);
      UnquoteEscape(b[0], tail, pend);
      UnquotePercentBytes(b[1..], rest, pend + [b[0]]);
      AppendHead(pend, b);
    }
  }

  lemma PercentBytesCons(b: seq<Byte>, rest: string)
    requires b != []
    ensures PercentBytes(b) + rest == ['%', HexDigit(b[0] / 16), HexDigit(b[0] % 16)] + (PercentBytes(b[1..]) + rest)
  {
  }

  lemma AppendHead(pend: seq<Byte>, b: seq<Byte>)
    requires b != []
    ensures pend + [b[0]] + b[1..] == pend + b
  {
    assert b == [b[0]] + b[1..];
  }

  /** One `%XX` escape adds its byte. */
  lemma UnquoteEscape(x: Byte, r: string, pend: seq<Byte>)
    ensures UnquoteFrom(['%', HexDigit(x / 16), HexDigit(x % 16)] + r, pend) == UnquoteFrom(r, pend + [x])
  {
    var hi, lo := HexDigit(x / 16), HexDigit(x % 16);
    var s := ['%', hi, lo] + r;
    assert s[0] == '%' && s[1] == hi && s[2] == lo;
    assert s[3..] == r;
    assert HexVal(hi) * 16 + HexVal(lo) == x;
  }

  lemma {:induction false} UnquotePercentEncode(s: string, rest: string, pend: seq<Byte>)
    ensures UnquoteFrom(PercentEncode(s) + rest, pend) == UnquoteFrom(rest, pend + EncodeUtf8(s))
  {
    if s == [] {
      assert PercentEncode(s) + rest == rest;
      assert pend + EncodeUtf8(s) == pend;
    } else {
      UnquoteEncodedHead(s, rest, pend);
      UnquotePercentEncode(s[1..], rest, pend + EncodeChar(s[0]));
      EncodeUtf8Cons(s, pend);
    }
  }

  lemma EncodeUtf8Cons(s: string, pend: seq<Byte>)
    requires s != []
    ensures pend + EncodeChar(s[0]) + EncodeUtf8(s[1..]) == pend + EncodeUtf8(s)
  {
    assert EncodeUtf8(s) == EncodeChar(s[0]) + EncodeUtf8(s[1..]);
  }

  /** The encoding of the first character adds that character's UTF-8 bytes. */
  lemma UnquoteEncodedHead(s: string, rest: string, pend: seq<Byte>)
    requires s != []
    ensures UnquoteFrom(PercentEncode(s) + rest, pend)
            == UnquoteFrom(PercentEncode(s[1..]) + rest, pend + EncodeChar(s[0]))
  {
    if Unreserved(s[0]) {
      UnreservedHead(s, rest, pend);
    } else {
      EscapedHead(s, rest, pend);
    }
  }

  lemma UnreservedHead(s: string, rest: string, pend: seq<Byte>)
    requires s != [] && Unreserved(s[0])
    ensures UnquoteFrom(PercentEncode(s) + rest, pend)
            == UnquoteFrom(PercentEncode(s[1..]) + rest, pend + EncodeChar(s[0]))
  {
    var tail := PercentEncode(s[1..]) + rest;
    assert PercentEncode(s) + rest == [s[0]] + tail;
    assert ([s[0]] + tail)[1..] == tail;
  }

  lemma EscapedHead(s: string, rest: string, pend: seq<Byte>)
    requires s != [] && !Unreserved(s[0])
    ensures UnquoteFrom(PercentEncode(s) + rest, pend)
            == UnquoteFrom(PercentEncode(s[1..]) + rest, pend + EncodeChar(s[0]))
  {
    var tail := PercentEncode(s[1..]) + rest;
    assert PercentEncode(s) + rest == PercentBytes(EncodeChar(s[0])) + tail;
    UnquotePercentBytes(EncodeChar(s[0]), tail, pend);
  }

  /** `unquote` inverts percent-encoding, for every string. */
  lemma UnquotePercentEncodeRoundTrip(s: string)
    ensures Unquote(PercentEncode(s)) == s
  {
    var e := PercentEncode(s);
    UnquoteIsScan(e);
    UnquotePercentEncode(s, [], []);
    assert e + [] == e;
    var b := EncodeUtf8(s);
    assert [] + b == b;
    assert UnquoteFrom([], b) == DecodeUtf8(b);
    DecodeEncode(s);
  }
}
