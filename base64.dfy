/**
 * The Base64 encoding of section 4 of RFC 4648 (standard alphabet, `=` padding),
 * which is what Node's `Buffer.toString('base64')` produces, and its decoding.
 */
module Base64 {
  import opened Wrappers
  import opened Bytes

  const Pad: char := '='

  /**
   * The character of the alphabet of section 4 of RFC 4648 for a 6-bit value:
   * `A`-`Z`, `a`-`z`, `0`-`9`, `+`, `/`.
   */
  function IndexChar(i: nat): (c: char)
    requires i < 64
    ensures c != Pad
  {
    if i < 26 then ('A' as int + i) as char
    else if i < 52 then ('a' as int + (i - 26)) as char
    else if i < 62 then ('0' as int + (i - 52)) as char
    else if i == 62 then '+'
    else '/'
  }

  /** The 6-bit value a character stands for, or None when it is not in the alphabet. */
  function CharIndex(c: char): (r: Option<nat>)
    ensures r.Some? ==> r.value < 64 && IndexChar(r.value) == c
  {
    if 'A' <= c <= 'Z' then Some(c as int - 'A' as int)
    else if 'a' <= c <= 'z' then Some(c as int - 'a' as int + 26)
    else if '0' <= c <= '9' then Some(c as int - '0' as int + 52)
    else if c == '+' then Some(62)
    else if c == '/' then Some(63)
    else None
  }

  predicate InAlphabet(c: char) {
    CharIndex(c).Some?
  }

  lemma CharIndexOfIndexChar(i: nat)
    requires i < 64
    ensures CharIndex(IndexChar(i)) == Some(i)
  {
  }

  /** Three bytes become four characters. */
  function EncodeFull(b0: byte, b1: byte, b2: byte): string {
    var x0, x1, x2 := b0 as int, b1 as int, b2 as int;
    [IndexChar(x0 / 4), IndexChar((x0 % 4) * 16 + x1 / 16), IndexChar((x1 % 16) * 4 + x2 / 64), IndexChar(x2 % 64)]
  }

  /** A final group of two bytes: three characters and one pad. */
  function EncodeTwo(b0: byte, b1: byte): string {
    var x0, x1 := b0 as int, b1 as int;
    [IndexChar(x0 / 4), IndexChar((x0 % 4) * 16 + x1 / 16), IndexChar((x1 % 16) * 4), Pad]
  }

  /** A final group of one byte: two characters and two pads. */
  function EncodeOne(b0: byte): string {
    var x0 := b0 as int;
    [IndexChar(x0 / 4), IndexChar((x0 % 4) * 16), Pad, Pad]
  }

  function Encode(data: seq<byte>): (r: string)
    ensures |r| % 4 == 0
    ensures r == "" <==> data == []
    decreases |data|
  {
    if |data| == 0 then ""
    else if |data| == 1 then EncodeOne(data[0])
    else if |data| == 2 then EncodeTwo(data[0], data[1])
    else EncodeFull(data[0], data[1], data[2]) + Encode(data[3..])
  }

  /** The output has four characters per started group of three bytes, all from the alphabet except trailing pads. */
  lemma {:induction false} EncodeShape(data: seq<byte>)
    ensures |Encode(data)| == 4 * ((|data| + 2) / 3)
    ensures forall i :: 0 <= i < |Encode(data)| ==> InAlphabet(Encode(data)[i]) || Encode(data)[i] == Pad
    ensures forall i :: 0 <= i < |Encode(data)| - 2 ==> Encode(data)[i] != Pad
  {
    EncodeLength(data);
    EncodeChars(data);
  }

  lemma {:induction false} EncodeLength(data: seq<byte>)
    ensures |Encode(data)| == 4 * ((|data| + 2) / 3)
    decreases |data|
  {
    if |data| > 2 {
      EncodeLength(data[3..]);
      GroupCount(|data|);
    }
  }

  /** One more group of three bytes is one more started group. */
  lemma GroupCount(n: nat)
    requires n >= 3
    ensures (n + 2) / 3 == (n - 3 + 2) / 3 + 1
  {
  }

  lemma {:induction false} EncodeChars(data: seq<byte>)
    ensures forall i :: 0 <= i < |Encode(data)| ==> InAlphabet(Encode(data)[i]) || Encode(data)[i] == Pad
    ensures forall i :: 0 <= i < |Encode(data)| - 2 ==> Encode(data)[i] != Pad
    decreases |data|
  {
    if |data| == 1 {
      OneShape(data[0]);
    } else if |data| == 2 {
      TwoShape(data[0], data[1]);
    } else if |data| > 2 {
      EncodeChars(data[3..]);
      var head := EncodeFull(data[0], data[1], data[2]);
      FullShape(data[0], data[1], data[2]);
      assert Encode(data) == head + Encode(data[3..]);
      ShapeAppend(head, Encode(data[3..]));
    }
  }

  /** A full group followed by well-formed text is well-formed text. */
  lemma ShapeAppend(head: string, tail: string)
    requires |head| == 4 && forall i :: 0 <= i < 4 ==> InAlphabet(head[i])
    requires forall i :: 0 <= i < |tail| ==> InAlphabet(tail[i]) || tail[i] == Pad
    requires forall i :: 0 <= i < |tail| - 2 ==> tail[i] != Pad
    ensures forall i :: 0 <= i < |head + tail| ==> InAlphabet((head + tail)[i]) || (head + tail)[i] == Pad
    ensures forall i :: 0 <= i < |head + tail| - 2 ==> (head + tail)[i] != Pad
  {
    forall i | 0 <= i < |head + tail|
      ensures InAlphabet((head + tail)[i]) || (head + tail)[i] == Pad
      ensures i < |head + tail| - 2 ==> (head + tail)[i] != Pad
    {
      if i < 4 {
        assert (head + tail)[i] == head[i];
        assert head[i] != Pad by { assert InAlphabet(head[i]); }
      } else {
        assert (head + tail)[i] == tail[i - 4];
      }
    }
  }

  lemma IndexCharInAlphabet(i: nat)
    requires i < 64
    ensures InAlphabet(IndexChar(i))
  {
    CharIndexOfIndexChar(i);
  }

  lemma FullShape(b0: byte, b1: byte, b2: byte)
    ensures forall i :: 0 <= i < 4 ==> InAlphabet(EncodeFull(b0, b1, b2)[i])
  {
    var x0, x1, x2 := b0 as int, b1 as int, b2 as int;
    IndexCharInAlphabet(x0 / 4);
    IndexCharInAlphabet((x0 % 4) * 16 + x1 / 16);
    IndexCharInAlphabet((x1 % 16) * 4 + x2 / 64);
    IndexCharInAlphabet(x2 % 64);
  }

  lemma TwoShape(b0: byte, b1: byte)
    ensures forall i :: 0 <= i < 3 ==> InAlphabet(EncodeTwo(b0, b1)[i])
  {
    var x0, x1 := b0 as int, b1 as int;
    IndexCharInAlphabet(x0 / 4);
    IndexCharInAlphabet((x0 % 4) * 16 + x1 / 16);
    IndexCharInAlphabet((x1 % 16) * 4);
  }

  lemma OneShape(b0: byte)
    ensures forall i :: 0 <= i < 2 ==> InAlphabet(EncodeOne(b0)[i])
  {
    var x0 := b0 as int;
    IndexCharInAlphabet(x0 / 4);
    IndexCharInAlphabet((x0 % 4) * 16);
  }

  /** Decodes one four-character group; `last` allows it to end in padding. */
  function DecodeGroup(g: string, last: bool): (r: Option<seq<byte>>)
    requires |g| == 4
  {
    match (CharIndex(g[0]), CharIndex(g[1]), CharIndex(g[2]), CharIndex(g[3]))
    case (Some(c0), Some(c1), Some(c2), Some(c3)) =>
      Some([(c0 * 4 + c1 / 16) as byte, ((c1 % 16) * 16 + c2 / 4) as byte, ((c2 % 4) * 64 + c3) as byte])
    case (Some(c0), Some(c1), Some(c2), None) =>
      if last && g[3] == Pad then Some([(c0 * 4 + c1 / 16) as byte, ((c1 % 16) * 16 + c2 / 4) as byte]) else None
    case (Some(c0), Some(c1), None, None) =>
      if last && g[2] == Pad && g[3] == Pad then Some([(c0 * 4 + c1 / 16) as byte]) else None
    case _ => None
  }

  /** Decodes a whole Base64 text, or None when it is not well formed. */
  function Decode(s: string): (r: Option<seq<byte>>)
    decreases |s|
  {
    if |s| == 0 then Some([])
    else if |s| < 4 then None
    else if |s| == 4 then DecodeGroup(s, true)
    else
      match (DecodeGroup(s[..4], false), Decode(s[4..]))
      case (Some(head), Some(tail)) => Some(head + tail)
      case _ => None
  }

  /** Splitting `a * 16 + b` by 16 gives back `a` and `b`. */
  lemma Split16(a: nat, b: nat)
    requires b < 16
    ensures (a * 16 + b) / 16 == a && (a * 16 + b) % 16 == b
  {
  }

  /** Splitting `a * 4 + b` by 4 gives back `a` and `b`. */
  lemma Split4(a: nat, b: nat)
    requires b < 4
    ensures (a * 4 + b) / 4 == a && (a * 4 + b) % 4 == b
  {
  }

  /** The 6-bit values of a group reassemble into its bytes. */
  lemma Regroup(x0: nat, x1: nat, x2: nat)
    requires x0 < 256 && x1 < 256 && x2 < 256
    ensures var c1, c2 := (x0 % 4) * 16 + x1 / 16, (x1 % 16) * 4 + x2 / 64;
      (x0 / 4) * 4 + c1 / 16 == x0 && (c1 % 16) * 16 + c2 / 4 == x1 && (c2 % 4) * 64 + x2 % 64 == x2
  {
    Split16(x0 % 4, x1 / 16);
    Split4(x1 % 16, x2 / 64);
  }

  lemma DecodeFull(b0: byte, b1: byte, b2: byte, last: bool)
    ensures DecodeGroup(EncodeFull(b0, b1, b2), last) == Some([b0, b1, b2])
  {
    var x0, x1, x2 := b0 as int, b1 as int, b2 as int;
    var c0, c1, c2, c3 := x0 / 4, (x0 % 4) * 16 + x1 / 16, (x1 % 16) * 4 + x2 / 64, x2 % 64;
    CharIndexOfIndexChar(c0);
    CharIndexOfIndexChar(c1);
    CharIndexOfIndexChar(c2);
    CharIndexOfIndexChar(c3);
    Regroup(x0, x1, x2);
  }

  lemma DecodeTwo(b0: byte, b1: byte)
    ensures DecodeGroup(EncodeTwo(b0, b1), true) == Some([b0, b1])
  {
    var x0, x1 := b0 as int, b1 as int;
    var c0, c1, c2 := x0 / 4, (x0 % 4) * 16 + x1 / 16, (x1 % 16) * 4;
    CharIndexOfIndexChar(c0);
    CharIndexOfIndexChar(c1);
    CharIndexOfIndexChar(c2);
    Regroup(x0, x1, 0);
  }

  lemma DecodeOne(b0: byte)
    ensures DecodeGroup(EncodeOne(b0), true) == Some([b0])
  {
    var x0 := b0 as int;
    CharIndexOfIndexChar(x0 / 4);
    CharIndexOfIndexChar((x0 % 4) * 16);
    Regroup(x0, 0, 0);
  }

  /** Decoding the encoding of any byte sequence gives the bytes back. */
  lemma {:induction false} DecodeEncode(data: seq<byte>)
    ensures Decode(Encode(data)) == Some(data)
    decreases |data|
  {
    if |data| == 1 {
      DecodeOne(data[0]);
      assert data == [data[0]];
    } else if |data| == 2 {
      DecodeTwo(data[0], data[1]);
      assert data == [data[0], data[1]];
    } else if |data| > 2 {
      var head := EncodeFull(data[0], data[1], data[2]);
      var tail := Encode(data[3..]);
      assert data == [data[0], data[1], data[2]] + data[3..];
      assert Encode(data) == head + tail;
      if |data| == 3 {
        DecodeFull(data[0], data[1], data[2], true);
        assert data[3..] == [] && data == [data[0], data[1], data[2]];
        assert Encode(data) == head && |head| == 4;
      } else {
        DecodeFull(data[0], data[1], data[2], false);
        DecodeEncode(data[3..]);
        EncodeShape(data[3..]);
        assert (head + tail)[..4] == head;
        assert (head + tail)[4..] == tail;
      }
    }
  }

  /** Different byte sequences have different encodings. */
  lemma EncodeInjective(a: seq<byte>, b: seq<byte>)
    requires Encode(a) == Encode(b)
    ensures a == b
  {
    DecodeEncode(a);
    DecodeEncode(b);
  }
}
