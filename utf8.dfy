/**
 * UTF-8, as Python's `str.encode("utf-8")` and strict `bytes.decode("utf-8")`
 * do it. A Dafny `char` is a Unicode scalar value, so every string encodes;
 * decoding rejects truncated sequences, stray continuation octets, overlong
 * forms, surrogates and values above U+10FFFF.
 */
module Utf8 {
  import opened Wrappers
  import opened Bytes

  predicate IsContinuation(b: byte) { 0x80 <= b < 0xC0 }

  /** The one to four octets of a single scalar value. */
  function EncodeChar(c: char): (r: seq<byte>)
    ensures 1 <= |r| <= 4
    ensures |r| == 1 <==> (c as int) < 0x80
  {
    var v := c as int;
    if v < 0x80 then [v]
    else if v < 0x800 then [0xC0 + v / 0x40, 0x80 + v % 0x40]
    else if v < 0x1_0000 then [0xE0 + v / 0x1000, 0x80 + (v / 0x40) % 0x40, 0x80 + v % 0x40]
    else [0xF0 + v / 0x4_0000, 0x80 + (v / 0x1000) % 0x40, 0x80 + (v / 0x40) % 0x40, 0x80 + v % 0x40]
  }

  function Encode(s: string): (r: seq<byte>)
    ensures |s| <= |r| <= 4 * |s|
    decreases s, 1
  {
    if s == [] then [] else EncodeNonEmpty(s)
  }

  /** The first character's octets, then the rest's. */
  function EncodeNonEmpty(s: string): (r: seq<byte>)
    requires s != []
    ensures |s| <= |r| <= 4 * |s|
    decreases s, 0
  {
    EncodeChar(s[0]) + Encode(s[1..])
  }

  /** Decodes the scalar value that starts `b`: the value and how many octets it took. */
  function DecodeChar(b: seq<byte>): (r: Option<(char, nat)>)
    requires |b| > 0
    ensures r.Some? ==> 1 <= r.value.1 <= |b|
  {
    var b0: int := b[0];
    if b0 < 0x80 then Some((b0 as char, 1))
    else if 0xC2 <= b0 < 0xE0 then
      if |b| >= 2 && IsContinuation(b[1]) then
        Some((((b0 - 0xC0) * 0x40 + (b[1] as int - 0x80)) as char, 2))
      else None
    else if 0xE0 <= b0 < 0xF0 then
      if |b| >= 3 && IsContinuation(b[1]) && IsContinuation(b[2]) then
        var v := (b0 - 0xE0) * 0x1000 + (b[1] as int - 0x80) * 0x40 + (b[2] as int - 0x80);
        if v < 0x800 || 0xD800 <= v < 0xE000 then None else Some((v as char, 3))
      else None
    else if 0xF0 <= b0 < 0xF5 then
      if |b| >= 4 && IsContinuation(b[1]) && IsContinuation(b[2]) && IsContinuation(b[3]) then
        var v := (b0 - 0xF0) * 0x4_0000 + (b[1] as int - 0x80) * 0x1000 + (b[2] as int - 0x80) * 0x40 + (b[3] as int - 0x80);
        if v < 0x1_0000 || v > 0x10_FFFF then None else Some((v as char, 4))
      else None
    else None
  }

  /** Strict decoding of a whole octet sequence; None where Python raises UnicodeDecodeError. */
  function Decode(b: seq<byte>): (r: Option<string>)
    ensures r.Some? ==> |r.value| <= |b|
    decreases |b|, 1
  {
    if b == [] then Some([]) else DecodeNonEmpty(b)
  }

  /** The first scalar value of a non-empty sequence, then the rest. */
  function DecodeNonEmpty(b: seq<byte>): (r: Option<string>)
    requires b != []
    ensures r.Some? ==> 1 <= |r.value| <= |b|
    decreases |b|, 0
  {
    var (c, k) :- DecodeChar(b);
    var rest :- Decode(b[k..]);
    Some([c] + rest)
  }

  lemma DecodeEncodedChar(c: char, rest: seq<byte>)
    ensures DecodeChar(EncodeChar(c) + rest) == Some((c, |EncodeChar(c)|))
  {
    var v := c as int;
    var b := EncodeChar(c) + rest;
    if v < 0x80 {
    } else if v < 0x800 {
      assert b[0] == 0xC0 + v / 0x40 && b[1] == 0x80 + v % 0x40;
      assert (v / 0x40) * 0x40 + v % 0x40 == v;
    } else if v < 0x1_0000 {
      assert b[0] == 0xE0 + v / 0x1000 && b[1] == 0x80 + (v / 0x40) % 0x40 && b[2] == 0x80 + v % 0x40;
      Split3(v);
    } else {
      assert b[0] == 0xF0 + v / 0x4_0000 && b[1] == 0x80 + (v / 0x1000) % 0x40;
      assert b[2] == 0x80 + (v / 0x40) % 0x40 && b[3] == 0x80 + v % 0x40;
      Split4(v);
    }
  }

  lemma Split3(v: nat)
    requires v < 0x1_0000
    ensures (v / 0x1000) * 0x1000 + ((v / 0x40) % 0x40) * 0x40 + v % 0x40 == v
  {
    var q := v / 0x40;
    assert q * 0x40 + v % 0x40 == v;
    assert (q / 0x40) * 0x40 + q % 0x40 == q;
    assert q / 0x40 == v / 0x1000;
  }

  lemma Split4(v: nat)
    requires v < 0x11_0000
    ensures (v / 0x4_0000) * 0x4_0000 + ((v / 0x1000) % 0x40) * 0x1000
            + ((v / 0x40) % 0x40) * 0x40 + v % 0x40 == v
  {
    var q := v / 0x40;
    var p := q / 0x40;
    assert q * 0x40 + v % 0x40 == v;
    assert p * 0x40 + q % 0x40 == q;
    assert (p / 0x40) * 0x40 + p % 0x40 == p;
    assert p == v / 0x1000;
    assert p / 0x40 == v / 0x4_0000;
  }

  /** Strict decoding undoes encoding, for every string. */
  lemma {:induction false} DecodeEncode(s: string)
    ensures Decode(Encode(s)) == Some(s)
  {
    if s != [] {
      var e := EncodeChar(s[0]);
      DecodeEncodedChar(s[0], Encode(s[1..]));
      assert (e + Encode(s[1..]))[|e|..] == Encode(s[1..]);
      DecodeEncode(s[1..]);
      assert [s[0]] + s[1..] == s;
    }
  }

  predicate IsAscii(s: string)
  {
    forall i :: 0 <= i < |s| ==> (s[i] as int) < 0x80
  }

  /**
   * The encoding is never shorter than the string, and has exactly one octet
   * per character precisely when every character is ASCII.
   */
  lemma {:induction false} EncodedLength(s: string)
    ensures |Encode(s)| >= |s|
    ensures |Encode(s)| == |s| <==> IsAscii(s)
  {
    if s != [] {
      EncodedLength(s[1..]);
      if IsAscii(s[1..]) {
        assert IsAscii(s) <==> (s[0] as int) < 0x80 by {
          forall i | 1 <= i < |s| ensures s[i] == s[1..][i - 1] {}
        }
      } else {
        var i :| 0 <= i < |s[1..]| && (s[1..][i] as int) >= 0x80;
        assert (s[i + 1] as int) >= 0x80;
      }
    }
  }
}
