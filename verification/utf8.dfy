/** UTF-8 decoding as Python's `bytes.decode('utf-8', errors='ignore')`
    performs it, and the matching encoder.

    Well-formed sequences are those of Table 3-7 of the Unicode Standard
    (chapter 3, section 3.9). With `errors='ignore'` every ill-formed part
    is dropped. CPython drops a maximal ill-formed subpart at a time; such a
    subpart is a lead byte followed only by continuation bytes (0x80..0xBF),
    and a continuation byte never starts a well-formed sequence, so dropping
    one byte at a time, as `Decode` does, removes exactly the same bytes. */
module Utf8 {
  import opened Wire

  predicate IsCont(b: byte) { 0x80 <= b <= 0xBF }

  /** A Unicode scalar value: a code point that is not a surrogate. */
  predicate IsScalar(cp: int) { 0 <= cp < 0xD800 || 0xE000 <= cp < 0x11_0000 }

  /** Length of the well-formed sequence at the head of `bs`; 0 when no
      well-formed sequence starts there. */
  function HeadLength(bs: seq<byte>): (n: nat)
    ensures n <= 4 && n <= |bs|
    ensures |bs| > 0 && bs[0] < 0x80 ==> n == 1
  {
    if |bs| == 0 then 0
    else
      var b0 := bs[0];
      if b0 < 0x80 then 1
      else if 0xC2 <= b0 <= 0xDF then
        if |bs| >= 2 && IsCont(bs[1]) then 2 else 0
      else if 0xE0 <= b0 <= 0xEF then
        var lo := if b0 == 0xE0 then 0xA0 else 0x80;
        var hi := if b0 == 0xED then 0x9F else 0xBF;
        if |bs| >= 3 && lo <= bs[1] <= hi && IsCont(bs[2]) then 3 else 0
      else if 0xF0 <= b0 <= 0xF4 then
        var lo := if b0 == 0xF0 then 0x90 else 0x80;
        var hi := if b0 == 0xF4 then 0x8F else 0xBF;
        if |bs| >= 4 && lo <= bs[1] <= hi && IsCont(bs[2]) && IsCont(bs[3]) then 4 else 0
      else 0
  }

  /** The code point of the well-formed sequence at the head of `bs`. */
  function HeadScalar(bs: seq<byte>): (cp: int)
    requires HeadLength(bs) > 0
    ensures IsScalar(cp)
  {
    var n := HeadLength(bs);
    var b0: int := bs[0];
    if n == 1 then b0
    else if n == 2 then (b0 - 0xC0) * 64 + (bs[1] as int - 0x80)
    else if n == 3 then (b0 - 0xE0) * 4096 + (bs[1] as int - 0x80) * 64 + (bs[2] as int - 0x80)
    else (b0 - 0xF0) * 262144 + (bs[1] as int - 0x80) * 4096 + (bs[2] as int - 0x80) * 64 + (bs[3] as int - 0x80)
  }

  /** `bs.decode('utf-8', errors='ignore')`. */
  function Decode(bs: seq<byte>): (s: string)
    ensures |s| <= |bs|
    decreases |bs|
  {
    if |bs| == 0 then []
    else
      var n := HeadLength(bs);
      if n == 0 then Decode(bs[1..])
      else [HeadScalar(bs) as char] + Decode(bs[n..])
  }

  /** `c.encode('utf-8')`. */
  function EncodeChar(c: char): (r: seq<byte>)
    ensures 1 <= |r| <= 4
  {
    var cp := c as int;
    if cp < 0x80 then [cp]
    else if cp < 0x800 then [0xC0 + cp / 64, 0x80 + cp % 64]
    else if cp < 0x1_0000 then [0xE0 + cp / 4096, 0x80 + (cp / 64) % 64, 0x80 + cp % 64]
    else [0xF0 + cp / 262144, 0x80 + (cp / 4096) % 64, 0x80 + (cp / 64) % 64, 0x80 + cp % 64]
  }

  /** `s.encode('utf-8')`. */
  function Encode(s: string): (r: seq<byte>)
    ensures |r| >= |s|
  {
    if |s| == 0 then [] else EncodeChar(s[0]) + Encode(s[1..])
  }

  /** The encoding of one character is a well-formed sequence that decodes
      back to it, whatever follows. */
  lemma HeadOfEncodeChar(c: char, rest: seq<byte>)
    ensures HeadLength(EncodeChar(c) + rest) == |EncodeChar(c)|
    ensures HeadScalar(EncodeChar(c) + rest) == c as int
  {
    var cp := c as int;
    if cp < 0x80 {
    } else if cp < 0x800 {
      HeadOfTwo(cp, rest);
    } else if cp < 0x1_0000 {
      HeadOfThree(cp, rest);
    } else {
      HeadOfFour(cp, rest);
    }
  }

  lemma HeadOfTwo(cp: int, rest: seq<byte>)
    requires 0x80 <= cp < 0x800
    ensures var bs := [0xC0 + cp / 64, 0x80 + cp % 64] + rest;
      HeadLength(bs) == 2 && HeadScalar(bs) == cp
  {
    var q, l := cp / 64, cp % 64;
    assert 2 <= q < 32 && 0 <= l < 64;
    assert cp == q * 64 + l;
  }

  lemma HeadOfThree(cp: int, rest: seq<byte>)
    requires 0x800 <= cp < 0x1_0000 && IsScalar(cp)
    ensures var bs := [0xE0 + cp / 4096, 0x80 + (cp / 64) % 64, 0x80 + cp % 64] + rest;
      HeadLength(bs) == 3 && HeadScalar(bs) == cp
  {
    var q, m, l := cp / 4096, (cp / 64) % 64, cp % 64;
    DivMod3(cp);
    assert q < 16;
    assert q == 0 ==> m >= 32;
    assert q == 13 ==> m < 32;
    var bs := [0xE0 + q, 0x80 + m, 0x80 + l] + rest;
    assert HeadLength(bs) == 3;
  }

  lemma DivMod3(cp: int)
    requires 0 <= cp
    ensures cp == (cp / 4096) * 4096 + ((cp / 64) % 64) * 64 + cp % 64
  {
    var a := cp / 64;
    assert cp == a * 64 + cp % 64;
    assert a == (a / 64) * 64 + a % 64;
    assert a / 64 == cp / 4096;
  }

  lemma DivMod4(cp: int)
    requires 0 <= cp
    ensures cp == (cp / 262144) * 262144 + ((cp / 4096) % 64) * 4096 + ((cp / 64) % 64) * 64 + cp % 64
  {
    var a := cp / 64;
    var b := a / 64;
    assert cp == a * 64 + cp % 64;
    assert a == b * 64 + a % 64;
    assert b == (b / 64) * 64 + b % 64;
    assert b == cp / 4096;
    assert b / 64 == cp / 262144;
  }

  lemma HeadOfFour(cp: int, rest: seq<byte>)
    requires 0x1_0000 <= cp < 0x11_0000
    ensures var bs := [0xF0 + cp / 262144, 0x80 + (cp / 4096) % 64, 0x80 + (cp / 64) % 64, 0x80 + cp % 64] + rest;
      HeadLength(bs) == 4 && HeadScalar(bs) == cp
  {
    var q, h, m, l := cp / 262144, (cp / 4096) % 64, (cp / 64) % 64, cp % 64;
    DivMod4(cp);
    assert q <= 4;
    assert q == 0 ==> h >= 16;
    assert q == 4 ==> h < 16;
    var bs := [0xF0 + q, 0x80 + h, 0x80 + m, 0x80 + l] + rest;
    assert HeadLength(bs) == 4;
  }

  /** Decoding an encoded string, followed by anything, yields the string
      followed by the decoding of the rest. */
  lemma {:induction false} DecodeEncodeAppend(s: string, rest: seq<byte>)
    ensures Decode(Encode(s) + rest) == s + Decode(rest)
  {
    if |s| > 0 {
      var e, t := EncodeChar(s[0]), Encode(s[1..]) + rest;
      var bs := Encode(s) + rest;
      assert bs == e + t;
      HeadOfEncodeChar(s[0], t);
      DecodeWellFormedHead(bs);
      assert bs[|e|..] == t;
      DecodeEncodeAppend(s[1..], rest);
      assert s == [s[0]] + s[1..];
    } else {
      assert Encode(s) + rest == rest;
    }
  }

  /** A well-formed sequence at the head decodes to its scalar value. */
  lemma DecodeWellFormedHead(bs: seq<byte>)
    requires HeadLength(bs) > 0
    ensures Decode(bs) == [HeadScalar(bs) as char] + Decode(bs[HeadLength(bs)..])
  {
  }

  /** Round trip: the encoding of any string decodes back to it. */
  lemma DecodeEncode(s: string)
    ensures Decode(Encode(s)) == s
  {
    DecodeEncodeAppend(s, []);
    assert Encode(s) + [] == Encode(s);
  }

  /** The converse of `HeadOfEncodeChar`: every sequence the decoder
      accepts is the canonical encoding of the character it yields, so no
      overlong form, surrogate or value past U+10FFFF is accepted. */
  lemma HeadIsEncoding(bs: seq<byte>)
    requires HeadLength(bs) > 0
    ensures bs[..HeadLength(bs)] == EncodeChar(HeadScalar(bs) as char)
  {
    var n := HeadLength(bs);
    if n == 2 {
      HeadIsEncodingTwo(bs);
    } else if n == 3 {
      HeadIsEncodingThree(bs);
    } else if n == 4 {
      HeadIsEncodingFour(bs);
    }
  }

  lemma HeadIsEncodingTwo(bs: seq<byte>)
    requires HeadLength(bs) == 2
    ensures bs[..2] == EncodeChar(HeadScalar(bs) as char)
  {
    var cp := HeadScalar(bs);
    var q, l: int := bs[0] as int - 0xC0, bs[1] as int - 0x80;
    assert 2 <= q < 32 && 0 <= l < 64;
    assert cp == l + 64 * q;
    DivMod64(cp, l, q);
  }

  lemma HeadIsEncodingThree(bs: seq<byte>)
    requires HeadLength(bs) == 3
    ensures bs[..3] == EncodeChar(HeadScalar(bs) as char)
  {
    var cp := HeadScalar(bs);
    var q, m, l: int := bs[0] as int - 0xE0, bs[1] as int - 0x80, bs[2] as int - 0x80;
    assert 0 <= q < 16 && 0 <= m < 64 && 0 <= l < 64;
    assert q == 0 ==> m >= 32;
    var hi := m + 64 * q;
    assert cp == l + 64 * hi;
    DivMod64(cp, l, hi);
    DivMod64(hi, m, q);
    DivMod4096(cp, l + 64 * m, q);
    assert 0x800 <= cp < 0x1_0000;
  }

  lemma HeadIsEncodingFour(bs: seq<byte>)
    requires HeadLength(bs) == 4
    ensures bs[..4] == EncodeChar(HeadScalar(bs) as char)
  {
    var cp := HeadScalar(bs);
    var q, h, m, l: int := bs[0] as int - 0xF0, bs[1] as int - 0x80, bs[2] as int - 0x80, bs[3] as int - 0x80;
    assert 0 <= q <= 4 && 0 <= h < 64 && 0 <= m < 64 && 0 <= l < 64;
    assert q == 0 ==> h >= 16;
    var top := h + 64 * q;
    var mid := m + 64 * top;
    assert cp == l + 64 * mid;
    DivMod64(cp, l, mid);
    DivMod64(mid, m, top);
    DivMod64(top, h, q);
    DivMod4096(cp, l + 64 * m, top);
    DivMod262144(cp, l + 64 * m + 4096 * h, q);
    assert 0x1_0000 <= cp;
  }

  lemma DivMod64(v: int, lo: int, q: int)
    requires 0 <= lo < 64 && v == lo + 64 * q
    ensures v / 64 == q && v % 64 == lo
  {
  }

  lemma DivMod4096(v: int, lo: int, q: int)
    requires 0 <= lo < 4096 && v == lo + 4096 * q
    ensures v / 4096 == q
  {
  }

  lemma DivMod262144(v: int, lo: int, q: int)
    requires 0 <= lo < 262144 && v == lo + 262144 * q
    ensures v / 262144 == q
  {
  }

  /** ASCII bytes decode one for one. */
  lemma {:induction false} DecodeAscii(bs: seq<byte>)
    requires forall i :: 0 <= i < |bs| ==> bs[i] < 0x80
    ensures |Decode(bs)| == |bs|
    ensures forall i :: 0 <= i < |bs| ==> Decode(bs)[i] as int == bs[i]
  {
    if |bs| > 0 {
      DecodeAscii(bs[1..]);
    }
  }

  /** Bytes that can never begin a well-formed sequence (0x80..0xC1 and
      0xF5..0xFF) decode to nothing at all. */
  lemma {:induction false} DecodeNeverLead(bs: seq<byte>)
    requires forall i :: 0 <= i < |bs| ==> 0x80 <= bs[i] < 0xC2 || bs[i] >= 0xF5
    ensures Decode(bs) == []
  {
    if |bs| > 0 {
      DecodeNeverLead(bs[1..]);
    }
  }
}
