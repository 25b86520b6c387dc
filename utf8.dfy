/**
 * UTF-8, the encoding Node's `Buffer.from(string)` applies to text. Dafny's
 * `char` is a Unicode scalar value, so every string has an encoding.
 */
module Utf8 {
  import opened Wrappers
  import opened Bytes

  /** A continuation byte carrying six bits. */
  function Cont(x: nat): byte
    requires x < 64
  {
    (0x80 + x) as byte
  }

  /** The one to four bytes of one scalar value. */
  function EncodeChar(c: char): (r: seq<byte>)
    ensures 1 <= |r| <= 4
    ensures (|r| == 1) <==> (c as int < 0x80)
  {
    var x := c as int;
    if x < 0x80 then [x as byte]
    else if x < 0x800 then [(0xC0 + x / 64) as byte, Cont(x % 64)]
    else if x < 0x10000 then [(0xE0 + x / 4096) as byte, Cont((x / 64) % 64), Cont(x % 64)]
    else [(0xF0 + x / 262144) as byte, Cont((x / 4096) % 64), Cont((x / 64) % 64), Cont(x % 64)]
  }

  function Encode(s: string): (r: seq<byte>)
    ensures |s| <= |r| <= 4 * |s|
    decreases |s|
  {
    if s == [] then [] else EncodeChar(s[0]) + Encode(s[1..])
  }

  /** The six bits of a continuation byte, if it is one. */
  function ContBits(b: byte): Option<nat> {
    if 0x80 <= b < 0xC0 then Some(b as int - 0x80) else None
  }

  /** A code point that is a Unicode scalar value, and so a `char`. */
  predicate IsScalar(x: int) {
    0 <= x < 0xD800 || 0xE000 <= x < 0x110000
  }

  /** Decodes the first character of `b`, with the number of bytes it took. */
  function DecodeFirst(b: seq<byte>): (r: Option<(char, nat)>)
    requires |b| > 0
    ensures r.Some? ==> 1 <= r.value.1 <= |b|
  {
    var b0 := b[0] as int;
    var x :=
      if b0 < 0x80 then Some((b0, 1))
      else if 0xC0 <= b0 < 0xE0 && |b| >= 2 && ContBits(b[1]).Some? then
        Some(((b0 - 0xC0) * 64 + ContBits(b[1]).value, 2))
      else if 0xE0 <= b0 < 0xF0 && |b| >= 3 && ContBits(b[1]).Some? && ContBits(b[2]).Some? then
        Some(((b0 - 0xE0) * 4096 + ContBits(b[1]).value * 64 + ContBits(b[2]).value, 3))
      else if 0xF0 <= b0 < 0xF8 && |b| >= 4 && ContBits(b[1]).Some? && ContBits(b[2]).Some? && ContBits(b[3]).Some? then
        Some(((b0 - 0xF0) * 262144 + ContBits(b[1]).value * 4096 + ContBits(b[2]).value * 64 + ContBits(b[3]).value, 4))
      else None;
    if x.Some? && IsScalar(x.value.0) then Some((x.value.0 as char, x.value.1)) else None
  }

  function Decode(b: seq<byte>): (r: Option<string>)
    decreases |b|
  {
    if b == [] then Some("")
    else
      match DecodeFirst(b)
      case None => None
      case Some((c, n)) =>
        match Decode(b[n..])
        case None => None
        case Some(rest) => Some([c] + rest)
  }

  /** `x` split into six-bit groups reassembles to `x`. */
  lemma Groups(x: nat)
    ensures (x / 64) * 64 + x % 64 == x
    ensures ((x / 64) / 64) * 64 + (x / 64) % 64 == x / 64
    ensures x / 4096 == (x / 64) / 64
    ensures x / 262144 == (x / 4096) / 64
  {
  }

  /** A character's bytes, followed by anything, decode back to the character first. */
  lemma DecodeEncodeChar(c: char, rest: seq<byte>)
    ensures DecodeFirst(EncodeChar(c) + rest) == Some((c, |EncodeChar(c)|))
  {
    var x := c as int;
    if x < 0x80 {
    } else if x < 0x800 {
      DecodeTwoBytes(c, rest);
    } else if x < 0x10000 {
      DecodeThreeBytes(c, rest);
    } else {
      DecodeFourBytes(c, rest);
    }
  }

  lemma DecodeTwoBytes(c: char, rest: seq<byte>)
    requires 0x80 <= c as int < 0x800
    ensures DecodeFirst(EncodeChar(c) + rest) == Some((c, 2))
  {
    var x := c as int;
    Groups(x);
    var b := EncodeChar(c) + rest;
    assert x / 64 < 32;
    assert b[0] as int == 0xC0 + x / 64 && ContBits(b[1]) == Some(x % 64);
  }

  lemma DecodeThreeBytes(c: char, rest: seq<byte>)
    requires 0x800 <= c as int < 0x10000
    ensures DecodeFirst(EncodeChar(c) + rest) == Some((c, 3))
  {
    var x := c as int;
    Groups(x);
    var b := EncodeChar(c) + rest;
    assert x / 4096 < 16;
    assert b[0] as int == 0xE0 + x / 4096;
    assert ContBits(b[1]) == Some((x / 64) % 64) && ContBits(b[2]) == Some(x % 64);
    assert (x / 4096) * 4096 + ((x / 64) % 64) * 64 + x % 64 == x;
  }

  lemma DecodeFourBytes(c: char, rest: seq<byte>)
    requires 0x10000 <= c as int
    ensures DecodeFirst(EncodeChar(c) + rest) == Some((c, 4))
  {
    var x := c as int;
    Groups(x);
    Groups(x / 64);
    var b := EncodeChar(c) + rest;
    assert x / 262144 < 8;
    assert b[0] as int == 0xF0 + x / 262144;
    assert ContBits(b[1]) == Some((x / 4096) % 64) && ContBits(b[2]) == Some((x / 64) % 64) && ContBits(b[3]) == Some(x % 64);
    assert (x / 262144) * 262144 + ((x / 4096) % 64) * 4096 + ((x / 64) % 64) * 64 + x % 64 == x;
  }

  /** Decoding the UTF-8 encoding of a string gives the string back. */
  lemma {:induction false} DecodeEncode(s: string)
    ensures Decode(Encode(s)) == Some(s)
    decreases |s|
  {
    if s != [] {
      var head, tail := EncodeChar(s[0]), Encode(s[1..]);
      assert Encode(s) == head + tail;
      DecodeEncodeChar(s[0], tail);
      assert (head + tail)[|head|..] == tail;
      DecodeEncode(s[1..]);
      assert s == [s[0]] + s[1..];
    }
  }

  /** ASCII text is encoded one byte per character, each byte its code. */
  lemma {:induction false} EncodeAscii(s: string)
    requires forall i :: 0 <= i < |s| ==> s[i] as int < 0x80
    ensures |Encode(s)| == |s|
    ensures forall i :: 0 <= i < |s| ==> Encode(s)[i] as int == s[i] as int
    decreases |s|
  {
    if s != [] {
      EncodeAscii(s[1..]);
    }
  }
}
