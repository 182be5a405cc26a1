/** UTF-8, as `String.getBytes(StandardCharsets.UTF_8)` produces it for a
    string of Unicode scalar values (a Dafny `char` is one scalar value, so no
    unpaired surrogate can occur). `Decode` is the inverse the encoder is
    checked against. */
module Utf8 {
  import opened Wrappers

  type Byte = b: int | 0 <= b < 256

  /** The one to four bytes of one code point. */
  function EncodeChar(c: char): (r: seq<Byte>)
    ensures 1 <= |r| <= 4
    ensures (c as int < 0x80) <==> |r| == 1
    ensures |r| == 1 ==> r[0] == c as int
  {
    var cp := c as int;
    if cp < 0x80 then
      [cp]
    else if cp < 0x800 then
      [0xC0 + cp / 64, 0x80 + cp % 64]
    else if cp < 0x10000 then
      [0xE0 + cp / 4096, 0x80 + (cp / 64) % 64, 0x80 + cp % 64]
    else
      [0xF0 + cp / 262144, 0x80 + (cp / 4096) % 64, 0x80 + (cp / 64) % 64, 0x80 + cp % 64]
  }

  /** getBytes(UTF_8): the characters' byte sequences one after another, so
      one to four bytes per character. */
  function Encode(s: string): (r: seq<Byte>)
    ensures |s| <= |r| <= 4 * |s|
  {
    if s == [] then [] else EncodeChar(s[0]) + Encode(s[1..])
  }

  /** Number of bytes announced by a lead byte, or 0 for a byte that cannot lead. */
  function SequenceLength(b: Byte): nat
  {
    if b < 0x80 then 1
    else if b < 0xC0 then 0
    else if b < 0xE0 then 2
    else if b < 0xF0 then 3
    else if b < 0xF8 then 4
    else 0
  }

  predicate IsContinuation(b: Byte) {
    0x80 <= b < 0xC0
  }

  function ToChar(cp: int): Option<char>
  {
    if 0 <= cp < 0xD800 || 0xE000 <= cp < 0x11_0000 then Some(cp as char) else None
  }

  /** The code point at the front of `bs` and the number of bytes it used. */
  function DecodeChar(bs: seq<Byte>): Option<(char, nat)>
  {
    if bs == [] then None
    else
      var n := SequenceLength(bs[0]);
      if n == 0 || |bs| < n then None
      else if n == 1 then Some((bs[0] as char, 1))
      else if n == 2 then
        if !IsContinuation(bs[1]) then None
        else match ToChar((bs[0] as int - 0xC0) * 64 + (bs[1] as int - 0x80))
          case Some(c) => Some((c, 2))
          case None => None
      else if n == 3 then
        if !IsContinuation(bs[1]) || !IsContinuation(bs[2]) then None
        else match ToChar((bs[0] as int - 0xE0) * 4096 + (bs[1] as int - 0x80) * 64 + (bs[2] as int - 0x80))
          case Some(c) => Some((c, 3))
          case None => None
      else
        if !IsContinuation(bs[1]) || !IsContinuation(bs[2]) || !IsContinuation(bs[3]) then None
        else match ToChar((bs[0] as int - 0xF0) * 262144 + (bs[1] as int - 0x80) * 4096 + (bs[2] as int - 0x80) * 64 + (bs[3] as int - 0x80))
          case Some(c) => Some((c, 4))
          case None => None
  }

  /** new String(bytes, UTF_8) on well-formed input; `None` where a byte
      sequence is malformed. Every character takes at least one byte. */
  function Decode(bs: seq<Byte>): (r: Option<string>)
    ensures r.Some? ==> |r.value| <= |bs|
    ensures bs == [] ==> r == Some([])
    decreases |bs|
  {
    if bs == [] then Some([])
    else match DecodeChar(bs)
      case None => None
      case Some((c, n)) =>
        if n == 0 || n > |bs| then None
        else match Decode(bs[n..])
          case None => None
          case Some(rest) => Some([c] + rest)
  }

  lemma DecodeEncodeChar(c: char, tail: seq<Byte>)
    ensures DecodeChar(EncodeChar(c) + tail) == Some((c, |EncodeChar(c)|))
  {
    var cp := c as int;
    if cp < 0x80 {
    } else if cp < 0x800 {
      DecodeEncodeTwo(c, tail);
    } else if cp < 0x10000 {
      DecodeEncodeThree(c, tail);
    } else {
      DecodeEncodeFour(c, tail);
    }
  }

  lemma DecodeEncodeTwo(c: char, tail: seq<Byte>)
    requires 0x80 <= c as int < 0x800
    ensures DecodeChar(EncodeChar(c) + tail) == Some((c, 2))
  {
    var cp := c as int;
    var hi, lo := cp / 64, cp % 64;
    assert cp == hi * 64 + lo;
    var bs := EncodeChar(c) + tail;
    assert bs[0] == 0xC0 + hi && bs[1] == 0x80 + lo;
    assert SequenceLength(bs[0]) == 2;
    assert ToChar((bs[0] as int - 0xC0) * 64 + (bs[1] as int - 0x80)) == Some(c);
  }

  lemma DecodeEncodeThree(c: char, tail: seq<Byte>)
    requires 0x800 <= c as int < 0x10000
    ensures DecodeChar(EncodeChar(c) + tail) == Some((c, 3))
  {
    var cp := c as int;
    var a, b, d := cp / 4096, (cp / 64) % 64, cp % 64;
    assert cp / 64 == a * 64 + b;
    assert cp == (cp / 64) * 64 + d;
    var bs := EncodeChar(c) + tail;
    assert bs[0] == 0xE0 + a && bs[1] == 0x80 + b && bs[2] == 0x80 + d;
    assert SequenceLength(bs[0]) == 3;
    assert ToChar(a * 4096 + b * 64 + d) == Some(c);
  }

  lemma DecodeEncodeFour(c: char, tail: seq<Byte>)
    requires 0x10000 <= c as int
    ensures DecodeChar(EncodeChar(c) + tail) == Some((c, 4))
  {
    var cp := c as int;
    var a, b, d, e := cp / 262144, (cp / 4096) % 64, (cp / 64) % 64, cp % 64;
    assert cp / 4096 == a * 64 + b;
    assert cp / 64 == (cp / 4096) * 64 + d;
    assert cp == (cp / 64) * 64 + e;
    var bs := EncodeChar(c) + tail;
    assert bs[0] == 0xF0 + a && bs[1] == 0x80 + b && bs[2] == 0x80 + d && bs[3] == 0x80 + e;
    assert SequenceLength(bs[0]) == 4;
    assert ToChar(a * 262144 + b * 4096 + d * 64 + e) == Some(c);
  }

  /** Decoding undoes encoding: the bytes of a text determine the text. */
  lemma {:induction false} DecodeEncode(s: string)
    ensures Decode(Encode(s)) == Some(s)
  {
    if s != [] {
      var head := EncodeChar(s[0]);
      var rest := Encode(s[1..]);
      assert Encode(s) == head + rest;
      DecodeEncodeChar(s[0], rest);
      assert (head + rest)[|head|..] == rest;
      DecodeEncode(s[1..]);
      assert [s[0]] + s[1..] == s;
    }
  }

  /** Consequence of the round trip: different texts have different bytes. */
  lemma EncodeInjective(s: string, t: string)
    requires s != t
    ensures Encode(s) != Encode(t)
  {
    DecodeEncode(s);
    DecodeEncode(t);
  }

  /** An ASCII text is encoded byte for byte. */
  lemma {:induction false} EncodeAscii(s: string)
    requires forall i :: 0 <= i < |s| ==> s[i] as int < 0x80
    ensures |Encode(s)| == |s|
    ensures forall i :: 0 <= i < |s| ==> Encode(s)[i] == s[i] as int
  {
    if s != [] {
      EncodeAscii(s[1..]);
      assert Encode(s) == [s[0] as int] + Encode(s[1..]);
    }
  }
}
