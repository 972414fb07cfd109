/**
 * The base 64 encoding of section 4 of RFC 4648, as `base64.b64encode`
 * produces it, together with a strict decoder (canonical padding, no
 * characters outside the alphabet) that inverts it.
 */
module Base64 {
  import opened Wrappers
  import opened Bytes

  /** A 6-bit group. */
  type sextet = x: int | 0 <= x < 64

  /** Table 1 of RFC 4648: `A`-`Z`, `a`-`z`, `0`-`9`, `+`, `/`. */
  function Symbol(i: sextet): (c: char)
    ensures c != '='
  {
    if i < 26 then (65 + i) as char
    else if i < 52 then (97 + i - 26) as char
    else if i < 62 then (48 + i - 52) as char
    else if i == 62 then '+'
    else '/'
  }

  /** A character of the encoded text: an alphabet symbol or the pad character. */
  predicate InAlphabet(c: char) {
    Value(c).Some? || c == '='
  }

  /** The 6-bit group an alphabet character stands for; `None` for padding and foreign characters. */
  function Value(c: char): (v: Option<sextet>)
    ensures c == '=' ==> v.None?
  {
    if 'A' <= c <= 'Z' then Some(c as int - 65)
    else if 'a' <= c <= 'z' then Some(c as int - 97 + 26)
    else if '0' <= c <= '9' then Some(c as int - 48 + 52)
    else if c == '+' then Some(62)
    else if c == '/' then Some(63)
    else None
  }

  /** `Value` reads back what `Symbol` writes. */
  lemma ValueOfSymbol(i: sextet)
    ensures Value(Symbol(i)) == Some(i)
  {
  }

  /** `Symbol` writes back what `Value` reads. */
  lemma SymbolOfValue(c: char)
    requires Value(c).Some?
    ensures Symbol(Value(c).value) == c
  {
  }

  /**
   * The four characters for one group of one to three octets; a group of
   * fewer than three octets is padded with `=`.
   */
  function Quantum(g: seq<byte>): (q: string)
    requires 1 <= |g| <= 3
    ensures |q| == 4 && (q[2] == '=' <==> |g| == 1) && (q[3] == '=' <==> |g| < 3)
  {
    if |g| == 1 then
      [Symbol(g[0] / 4), Symbol((g[0] % 4) * 16), '=', '=']
    else if |g| == 2 then
      [Symbol(g[0] / 4), Symbol((g[0] % 4) * 16 + g[1] / 16), Symbol((g[1] % 16) * 4), '=']
    else
      [Symbol(g[0] / 4), Symbol((g[0] % 4) * 16 + g[1] / 16), Symbol((g[1] % 16) * 4 + g[2] / 64),
       Symbol(g[2] % 64)]
  }

  /** `base64.b64encode`: four characters for every started group of three octets. */
  function Encode(b: seq<byte>): (s: string)
    ensures |s| == 4 * ((|b| + 2) / 3)
    decreases |b|
  {
    if |b| == 0 then ""
    else
      var n := if |b| < 3 then |b| else 3;
      assert (|b| + 2) / 3 == (|b| - n + 2) / 3 + 1;
      Quantum(b[..n]) + Encode(b[n..])
  }

  /**
   * The octets of one four-character group; padding is accepted only in the
   * `last` group, and the bits it leaves over must be zero.
   */
  function Group(c0: char, c1: char, c2: char, c3: char, last: bool): Option<seq<byte>> {
    var v0, v1 := Value(c0), Value(c1);
    if v0.None? || v1.None? then None
    else if last && c2 == '=' && c3 == '=' then
      if v1.value % 16 == 0 then Some([v0.value * 4 + v1.value / 16]) else None
    else
      var v2 := Value(c2);
      if v2.None? then None
      else if last && c3 == '=' then
        if v2.value % 4 == 0
        then Some([v0.value * 4 + v1.value / 16, (v1.value % 16) * 16 + v2.value / 4])
        else None
      else
        var v3 := Value(c3);
        if v3.None? then None
        else Some([v0.value * 4 + v1.value / 16, (v1.value % 16) * 16 + v2.value / 4,
                   (v2.value % 4) * 64 + v3.value])
  }

  /** Strict decoding: `None` unless `s` is exactly what `Encode` produces for some octets. */
  function Decode(s: string): Option<seq<byte>>
    decreases |s|
  {
    if |s| == 0 then Some([])
    else if |s| < 4 then None
    else match Group(s[0], s[1], s[2], s[3], |s| == 4)
      case None => None
      case Some(g) =>
        match Decode(s[4..])
        case None => None
        case Some(rest) => Some(g + rest)
  }

  // ----- arithmetic of one group -----

  /** The sextets of three octets recombine into those octets. */
  lemma Ungroup3(b0: byte, b1: byte, b2: byte)
    ensures var v0, v1, v2, v3 := b0 / 4, (b0 % 4) * 16 + b1 / 16, (b1 % 16) * 4 + b2 / 64, b2 % 64;
            v0 * 4 + v1 / 16 == b0 && (v1 % 16) * 16 + v2 / 4 == b1 && (v2 % 4) * 64 + v3 == b2
  {
    var v1 := (b0 % 4) * 16 + b1 / 16;
    assert v1 / 16 == b0 % 4 && v1 % 16 == b1 / 16;
    var v2 := (b1 % 16) * 4 + b2 / 64;
    assert v2 / 4 == b1 % 16 && v2 % 4 == b2 / 64;
  }

  /** The sextets of two octets recombine into those octets, the last one ending in two zero bits. */
  lemma Ungroup2(b0: byte, b1: byte)
    ensures var v0, v1, v2 := b0 / 4, (b0 % 4) * 16 + b1 / 16, (b1 % 16) * 4;
            v0 * 4 + v1 / 16 == b0 && (v1 % 16) * 16 + v2 / 4 == b1 && v2 % 4 == 0
  {
    var v1 := (b0 % 4) * 16 + b1 / 16;
    assert v1 / 16 == b0 % 4 && v1 % 16 == b1 / 16;
  }

  /** The sextets of one octet recombine into it, the second one ending in four zero bits. */
  lemma Ungroup1(b0: byte)
    ensures var v0, v1 := b0 / 4, (b0 % 4) * 16;
            v0 * 4 + v1 / 16 == b0 && v1 % 16 == 0
  {
  }

  /** The octets four sextets stand for re-encode to those sextets. */
  lemma Regroup3(v0: sextet, v1: sextet, v2: sextet, v3: sextet)
    ensures var b0, b1, b2 := v0 * 4 + v1 / 16, (v1 % 16) * 16 + v2 / 4, (v2 % 4) * 64 + v3;
            0 <= b0 < 256 && 0 <= b1 < 256 && 0 <= b2 < 256
            && b0 / 4 == v0 && (b0 % 4) * 16 + b1 / 16 == v1
            && (b1 % 16) * 4 + b2 / 64 == v2 && b2 % 64 == v3
  {
  }

  /** Two octets from three sextets whose last one ends in two zero bits re-encode to them. */
  lemma Regroup2(v0: sextet, v1: sextet, v2: sextet)
    requires v2 % 4 == 0
    ensures var b0, b1 := v0 * 4 + v1 / 16, (v1 % 16) * 16 + v2 / 4;
            0 <= b0 < 256 && 0 <= b1 < 256
            && b0 / 4 == v0 && (b0 % 4) * 16 + b1 / 16 == v1 && (b1 % 16) * 4 == v2
  {
  }

  /** One octet from two sextets whose second one ends in four zero bits re-encodes to them. */
  lemma Regroup1(v0: sextet, v1: sextet)
    requires v1 % 16 == 0
    ensures var b0 := v0 * 4 + v1 / 16;
            0 <= b0 < 256 && b0 / 4 == v0 && (b0 % 4) * 16 == v1
  {
  }

  // ----- one group both ways -----

  /** The quantum of three octets reads back as those octets, last or not. */
  lemma GroupOfQuantum3(g: seq<byte>, last: bool)
    requires |g| == 3
    ensures var q := Quantum(g); Group(q[0], q[1], q[2], q[3], last) == Some(g)
  {
    var v0, v1, v2, v3 := g[0] / 4, (g[0] % 4) * 16 + g[1] / 16, (g[1] % 16) * 4 + g[2] / 64, g[2] % 64;
    Ungroup3(g[0], g[1], g[2]);
    ValueOfSymbol(v0);
    ValueOfSymbol(v1);
    ValueOfSymbol(v2);
    ValueOfSymbol(v3);
    assert [g[0], g[1], g[2]] == g;
  }

  /** The padded quantum of two octets reads back as those octets in the last group. */
  lemma GroupOfQuantum2(g: seq<byte>)
    requires |g| == 2
    ensures var q := Quantum(g); Group(q[0], q[1], q[2], q[3], true) == Some(g)
  {
    var v0, v1, v2 := g[0] / 4, (g[0] % 4) * 16 + g[1] / 16, (g[1] % 16) * 4;
    Ungroup2(g[0], g[1]);
    ValueOfSymbol(v0);
    ValueOfSymbol(v1);
    ValueOfSymbol(v2);
    assert [g[0], g[1]] == g;
  }

  /** The padded quantum of one octet reads back as that octet in the last group. */
  lemma GroupOfQuantum1(g: seq<byte>)
    requires |g| == 1
    ensures var q := Quantum(g); Group(q[0], q[1], q[2], q[3], true) == Some(g)
  {
    Ungroup1(g[0]);
    ValueOfSymbol(g[0] / 4);
    ValueOfSymbol((g[0] % 4) * 16);
    assert [g[0]] == g;
  }

  /** A group of four characters that reads as three octets is their quantum. */
  lemma QuantumOfGroup3(c0: char, c1: char, c2: char, c3: char, last: bool)
    requires Group(c0, c1, c2, c3, last).Some? && !(last && c3 == '=')
    ensures var g := Group(c0, c1, c2, c3, last).value; |g| == 3 && Quantum(g) == [c0, c1, c2, c3]
  {
    var v0, v1, v2, v3 := Value(c0).value, Value(c1).value, Value(c2).value, Value(c3).value;
    var g := Group(c0, c1, c2, c3, last).value;
    Regroup3(v0, v1, v2, v3);
    assert g[0] / 4 == v0 && (g[0] % 4) * 16 + g[1] / 16 == v1 && (g[1] % 16) * 4 + g[2] / 64 == v2
           && g[2] % 64 == v3;
    assert Quantum(g) == [Symbol(v0), Symbol(v1), Symbol(v2), Symbol(v3)];
    SymbolOfValue(c0);
    SymbolOfValue(c1);
    SymbolOfValue(c2);
    SymbolOfValue(c3);
  }

  /** A last group ending in one `=` reads as two octets and is their quantum. */
  lemma QuantumOfGroup2(c0: char, c1: char, c2: char)
    requires Group(c0, c1, c2, '=', true).Some? && c2 != '='
    ensures var g := Group(c0, c1, c2, '=', true).value; |g| == 2 && Quantum(g) == [c0, c1, c2, '=']
  {
    var v0, v1, v2 := Value(c0).value, Value(c1).value, Value(c2).value;
    Regroup2(v0, v1, v2);
    SymbolOfValue(c0);
    SymbolOfValue(c1);
    SymbolOfValue(c2);
  }

  /** A last group ending in `==` reads as one octet and is its quantum. */
  lemma QuantumOfGroup1(c0: char, c1: char)
    requires Group(c0, c1, '=', '=', true).Some?
    ensures var g := Group(c0, c1, '=', '=', true).value; |g| == 1 && Quantum(g) == [c0, c1, '=', '=']
  {
    var v0, v1 := Value(c0).value, Value(c1).value;
    Regroup1(v0, v1);
    SymbolOfValue(c0);
    SymbolOfValue(c1);
  }

  /** Every group that reads back is the quantum of its octets; a short one only ends the text. */
  lemma QuantumOfGroup(c0: char, c1: char, c2: char, c3: char, last: bool)
    requires Group(c0, c1, c2, c3, last).Some?
    ensures var g := Group(c0, c1, c2, c3, last).value;
            1 <= |g| <= 3 && Quantum(g) == [c0, c1, c2, c3] && (|g| < 3 ==> last)
  {
    if last && c2 == '=' && c3 == '=' {
      QuantumOfGroup1(c0, c1);
    } else if last && c3 == '=' {
      QuantumOfGroup2(c0, c1, c2);
    } else {
      QuantumOfGroup3(c0, c1, c2, c3, last);
    }
  }

  // ----- the round trips -----

  /** Decoding undoes encoding. */
  lemma {:induction false} DecodeEncode(b: seq<byte>)
    ensures Decode(Encode(b)) == Some(b)
    decreases |b|
  {
    if |b| > 0 {
      var n := if |b| < 3 then |b| else 3;
      var q, t := Quantum(b[..n]), Encode(b[n..]);
      var s := q + t;
      assert s[0] == q[0] && s[1] == q[1] && s[2] == q[2] && s[3] == q[3] && s[4..] == t;
      if n == 3 {
        GroupOfQuantum3(b[..n], |s| == 4);
      } else {
        assert b[n..] == [];
        if n == 2 {
          GroupOfQuantum2(b[..n]);
        } else {
          GroupOfQuantum1(b[..n]);
        }
      }
      DecodeEncode(b[n..]);
      assert b[..n] + b[n..] == b;
    }
  }

  lemma FirstFour(s: string)
    requires |s| >= 4
    ensures s == [s[0], s[1], s[2], s[3]] + s[4..]
  {
  }

  /** The encoding uses only the symbols of the alphabet and the pad character. */
  lemma {:induction false} EncodeAlphabet(b: seq<byte>)
    ensures forall k :: 0 <= k < |Encode(b)| ==> InAlphabet(Encode(b)[k])
    decreases |b|
  {
    if |b| > 0 {
      var n := if |b| < 3 then |b| else 3;
      EncodeAlphabet(b[n..]);
      QuantumAlphabet(b[..n]);
      assert Encode(b) == Quantum(b[..n]) + Encode(b[n..]);
    }
  }

  /** The four characters of a group are alphabet symbols or padding. */
  lemma QuantumAlphabet(g: seq<byte>)
    requires 1 <= |g| <= 3
    ensures forall k :: 0 <= k < 4 ==> InAlphabet(Quantum(g)[k])
  {
    var q := Quantum(g);
    forall k | 0 <= k < 4
      ensures InAlphabet(q[k])
    {
      if q[k] != '=' {
        var v: sextet :| q[k] == Symbol(v);
        ValueOfSymbol(v);
      }
    }
  }

  /** Encoding a group of octets in front of more octets encodes the group on its own first. */
  lemma EncodeGroupFirst(g: seq<byte>, rest: seq<byte>)
    requires 1 <= |g| <= 3 && (|g| < 3 ==> rest == [])
    ensures Encode(g + rest) == Quantum(g) + Encode(rest)
  {
    var b := g + rest;
    var n := if |b| < 3 then |b| else 3;
    assert n == |g| && b[..n] == g && b[n..] == rest;
  }

  /** Whatever decodes re-encodes to the same text: the decoder accepts only canonical input. */
  lemma {:induction false} EncodeDecode(s: string)
    requires Decode(s).Some?
    ensures Encode(Decode(s).value) == s
    decreases |s|
  {
    if |s| > 0 {
      var last := |s| == 4;
      var g := Group(s[0], s[1], s[2], s[3], last).value;
      var rest := Decode(s[4..]).value;
      assert Decode(s).value == g + rest;
      QuantumOfGroup(s[0], s[1], s[2], s[3], last);
      EncodeDecode(s[4..]);
      EncodeGroupFirst(g, rest);
      FirstFour(s);
    }
  }
}
