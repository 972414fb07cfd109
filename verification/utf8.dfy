/**
 * UTF-8, the encoding Python's `str.encode()` uses by default (section 3 of
 * RFC 3629): every character becomes one to four octets.  `Decode` is the
 * strict decoder (no overlong forms, no surrogates, nothing above U+10FFFF)
 * and inverts `Encode`.
 */
module Utf8 {
  import opened Wrappers
  import opened Bytes

  /** The octets of one character. */
  function EncodeChar(c: char): (bs: seq<byte>)
    ensures 1 <= |bs| <= 4
    ensures (c as int < 0x80) <==> |bs| == 1
  {
    var n := c as int;
    if n < 0x80 then [n]
    else if n < 0x800 then [0xC0 + n / 64, 0x80 + n % 64]
    else if n < 0x10000 then [0xE0 + n / 4096, 0x80 + (n / 64) % 64, 0x80 + n % 64]
    else [0xF0 + n / 262144, 0x80 + (n / 4096) % 64, 0x80 + (n / 64) % 64, 0x80 + n % 64]
  }

  /** Python's `s.encode()`: the characters' octets, one after the other. */
  function Encode(s: string): (bs: seq<byte>)
    ensures |s| <= |bs| <= 4 * |s|
    decreases |s|
  {
    if |s| == 0 then [] else EncodeChar(s[0]) + Encode(s[1..])
  }

  /** How many octets a sequence starting with `b` spans; 0 when `b` cannot start one. */
  function Width(b: byte): nat {
    if b < 0x80 then 1
    else if 0xC2 <= b < 0xE0 then 2
    else if 0xE0 <= b < 0xF0 then 3
    else if 0xF0 <= b < 0xF5 then 4
    else 0
  }

  predicate IsContinuation(b: byte) { 0x80 <= b < 0xC0 }

  /** The character that `bs` (of length `Width(bs[0])`) encodes, if it is a well-formed sequence. */
  function DecodeChar(bs: seq<byte>): Option<char>
    requires 1 <= |bs| <= 4 && |bs| == Width(bs[0])
  {
    if |bs| == 1 then Some(bs[0] as char)
    else if exists k :: 1 <= k < |bs| && !IsContinuation(bs[k]) then None
    else if |bs| == 2 then
      Some(((bs[0] as int - 0xC0) * 64 + (bs[1] as int - 0x80)) as char)
    else if |bs| == 3 then
      var v := (bs[0] as int - 0xE0) * 4096 + (bs[1] as int - 0x80) * 64 + (bs[2] as int - 0x80);
      if v < 0x800 || 0xD800 <= v < 0xE000 then None else Some(v as char)
    else
      var v := (bs[0] as int - 0xF0) * 262144 + (bs[1] as int - 0x80) * 4096
               + (bs[2] as int - 0x80) * 64 + (bs[3] as int - 0x80);
      if v < 0x10000 || v > 0x10FFFF then None else Some(v as char)
  }

  /** Strict decoding: `None` unless `bs` is well-formed UTF-8. */
  function Decode(bs: seq<byte>): Option<string>
    decreases |bs|
  {
    if |bs| == 0 then Some([])
    else
      var w := Width(bs[0]);
      if w == 0 || |bs| < w then None
      else match DecodeChar(bs[..w])
        case None => None
        case Some(c) =>
          match Decode(bs[w..])
          case None => None
          case Some(rest) => Some([c] + rest)
  }

  /** A character's octets start with a byte announcing their number and decode back to it. */
  lemma DecodeEncodeChar(c: char)
    ensures var bs := EncodeChar(c); Width(bs[0]) == |bs| && DecodeChar(bs) == Some(c)
  {
    var n := c as int;
    if 0x80 <= n < 0x800 {
      DecodeEncodeTwo(c);
    } else if 0x800 <= n < 0x10000 {
      DecodeEncodeThree(c);
    } else if 0x10000 <= n {
      DecodeEncodeFour(c);
    }
  }

  lemma DecodeEncodeTwo(c: char)
    requires 0x80 <= c as int < 0x800
    ensures var bs := EncodeChar(c); Width(bs[0]) == |bs| && DecodeChar(bs) == Some(c)
  {
    var n := c as int;
    assert n == (n / 64) * 64 + n % 64;
  }

  lemma DecodeEncodeThree(c: char)
    requires 0x800 <= c as int < 0x10000
    ensures var bs := EncodeChar(c); Width(bs[0]) == |bs| && DecodeChar(bs) == Some(c)
  {
    var n := c as int;
    assert n / 64 == (n / 4096) * 64 + (n / 64) % 64;
    assert n == (n / 64) * 64 + n % 64;
  }

  lemma DecodeEncodeFour(c: char)
    requires 0x10000 <= c as int
    ensures var bs := EncodeChar(c); Width(bs[0]) == |bs| && DecodeChar(bs) == Some(c)
  {
    var n := c as int;
    assert n / 4096 == (n / 262144) * 64 + (n / 4096) % 64;
    assert n / 64 == (n / 4096) * 64 + (n / 64) % 64;
    assert n == (n / 64) * 64 + n % 64;
  }

  /** A well-formed sequence is the encoding of the character it decodes to. */
  lemma EncodeDecodeChar(bs: seq<byte>)
    requires 1 <= |bs| <= 4 && |bs| == Width(bs[0]) && DecodeChar(bs).Some?
    ensures EncodeChar(DecodeChar(bs).value) == bs
  {
    if |bs| == 2 {
      EncodeDecodeTwo(bs);
    } else if |bs| == 3 {
      EncodeDecodeThree(bs);
    } else if |bs| == 4 {
      EncodeDecodeFour(bs);
    }
  }

  lemma EncodeDecodeTwo(bs: seq<byte>)
    requires |bs| == 2 == Width(bs[0]) && DecodeChar(bs).Some?
    ensures EncodeChar(DecodeChar(bs).value) == bs
  {
    var n := DecodeChar(bs).value as int;
    assert IsContinuation(bs[1]);
    assert n / 64 == bs[0] as int - 0xC0 && n % 64 == bs[1] as int - 0x80;
  }

  lemma EncodeDecodeThree(bs: seq<byte>)
    requires |bs| == 3 == Width(bs[0]) && DecodeChar(bs).Some?
    ensures EncodeChar(DecodeChar(bs).value) == bs
  {
    var n := DecodeChar(bs).value as int;
    assert IsContinuation(bs[1]) && IsContinuation(bs[2]);
    var b0, b1, b2 := bs[0] as int, bs[1] as int, bs[2] as int;
    assert n / 4096 == b0 - 0xE0;
    assert n / 64 == (b0 - 0xE0) * 64 + (b1 - 0x80);
    assert n % 64 == b2 - 0x80;
  }

  lemma EncodeDecodeFour(bs: seq<byte>)
    requires |bs| == 4 == Width(bs[0]) && DecodeChar(bs).Some?
    ensures EncodeChar(DecodeChar(bs).value) == bs
  {
    var n := DecodeChar(bs).value as int;
    assert IsContinuation(bs[1]) && IsContinuation(bs[2]) && IsContinuation(bs[3]);
    var b0, b1, b2, b3 := bs[0] as int, bs[1] as int, bs[2] as int, bs[3] as int;
    assert n / 262144 == b0 - 0xF0;
    assert n / 4096 == (b0 - 0xF0) * 64 + (b1 - 0x80);
    assert n / 64 == ((b0 - 0xF0) * 64 + (b1 - 0x80)) * 64 + (b2 - 0x80);
    assert n % 64 == b3 - 0x80;
  }

  /** Decoding undoes encoding. */
  lemma {:induction false} DecodeEncode(s: string)
    ensures Decode(Encode(s)) == Some(s)
    decreases |s|
  {
    if |s| > 0 {
      var head := EncodeChar(s[0]);
      var bs := head + Encode(s[1..]);
      DecodeEncodeChar(s[0]);
      assert bs[..|head|] == head && bs[|head|..] == Encode(s[1..]);
      DecodeEncode(s[1..]);
      assert s == [s[0]] + s[1..];
    }
  }

  /** One step of a successful decoding: the first character, then the rest. */
  lemma DecodeStep(bs: seq<byte>)
    requires |bs| > 0 && Decode(bs).Some?
    ensures var w := Width(bs[0]);
            1 <= w <= |bs| && DecodeChar(bs[..w]).Some? && Decode(bs[w..]).Some?
            && Decode(bs).value == [DecodeChar(bs[..w]).value] + Decode(bs[w..]).value
  {
  }

  lemma EncodeCons(c: char, rest: string)
    ensures Encode([c] + rest) == EncodeChar(c) + Encode(rest)
  {
    assert ([c] + rest)[1..] == rest;
  }

  /** Whatever decodes re-encodes to the same octets: the decoder accepts only well-formed UTF-8. */
  lemma {:induction false} EncodeDecode(bs: seq<byte>)
    requires Decode(bs).Some?
    ensures Encode(Decode(bs).value) == bs
    decreases |bs|
  {
    if |bs| > 0 {
      var w := Width(bs[0]);
      DecodeStep(bs);
      var head, tail := bs[..w], bs[w..];
      var c, rest := DecodeChar(head).value, Decode(tail).value;
      EncodeDecodeChar(head);
      EncodeDecode(tail);
      EncodeCons(c, rest);
      assert bs == head + tail;
    }
  }

  /** Text made only of ASCII characters encodes to one octet per character, equal to its code. */
  lemma {:induction false} AsciiBytewise(s: string)
    requires forall k :: 0 <= k < |s| ==> s[k] as int < 0x80
    ensures |Encode(s)| == |s|
    ensures forall k :: 0 <= k < |s| ==> Encode(s)[k] == s[k] as int
    decreases |s|
  {
    if |s| > 0 {
      AsciiBytewise(s[1..]);
      assert forall k :: 1 <= k < |s| ==> Encode(s)[k] == Encode(s[1..])[k - 1] == s[1..][k - 1] as int;
    }
  }
}
