/**
 * Base 64 encoding as defined in section 4 of RFC 4648: the standard alphabet
 * of table 1, groups of three octets written as four characters, and `=`
 * padding for a final group of one or two octets. This is what Python's
 * `base64.b64encode(...).decode()` produces. `Decode` is the strict inverse:
 * it accepts exactly the strings `Encode` can produce.
 */
module Base64 {
  import opened Wrappers

  /** A six-bit group, the index into the alphabet. */
  type sextet = x: int | 0 <= x < 64

  const Pad: char := '='

  /** The character that table 1 of RFC 4648 assigns to `v`. */
  function Char(v: sextet): (c: char)
    ensures Value(c) == Some(v)
  {
    if v < 26 then ('A' as int + v) as char
    else if v < 52 then ('a' as int + (v - 26)) as char
    else if v < 62 then ('0' as int + (v - 52)) as char
    else if v == 62 then '+'
    else '/'
  }

  /** The value table 1 assigns to `c`, or `None` when `c` is not in the alphabet. */
  function Value(c: char): Option<sextet>
  {
    if 'A' <= c <= 'Z' then Some(c as int - 'A' as int)
    else if 'a' <= c <= 'z' then Some(c as int - 'a' as int + 26)
    else if '0' <= c <= '9' then Some(c as int - '0' as int + 52)
    else if c == '+' then Some(62)
    else if c == '/' then Some(63)
    else None
  }

  /** `Char` writes back what `Value` reads; the pad is not in the alphabet. */
  lemma CharOfValue(c: char)
    ensures Value(c).Some? ==> Char(Value(c).value) == c
    ensures Value(Pad).None?
  {
  }

  /** A character that may appear in an encoding: the alphabet or the pad. */
  predicate InAlphabet(c: char)
  {
    Value(c).Some? || c == Pad
  }

  /** The four six-bit groups of three octets, most significant bits first. */
  function Sextets(b0: byte, b1: byte, b2: byte): (v: seq<sextet>)
    ensures |v| == 4
  {
    [b0 / 4, b0 % 4 * 16 + b1 / 16, b1 % 16 * 4 + b2 / 64, b2 % 64]
  }

  /** The three octets that four six-bit groups spell. */
  function Octets(v: seq<sextet>): (b: seq<byte>)
    requires |v| == 4
    ensures |b| == 3
  {
    var v0, v1, v2, v3: int := v[0], v[1], v[2], v[3];
    [v0 * 4 + v1 / 16, v1 % 16 * 16 + v2 / 4, v2 % 4 * 64 + v3]
  }

  /** Splitting three octets into sextets and joining them again is the identity. */
  lemma OctetsOfSextets(b0: byte, b1: byte, b2: byte)
    ensures Octets(Sextets(b0, b1, b2)) == [b0, b1, b2]
  {
  }

  /** Joining four sextets into octets and splitting them again is the identity. */
  lemma SextetsOfOctets(v: seq<sextet>)
    requires |v| == 4
    ensures var b := Octets(v); Sextets(b[0], b[1], b[2]) == v
  {
    var v0, v1, v2, v3: int := v[0], v[1], v[2], v[3];
    var b0, b1, b2 := v0 * 4 + v1 / 16, v1 % 16 * 16 + v2 / 4, v2 % 4 * 64 + v3;
    assert b0 / 4 == v0 && b0 % 4 == v1 / 16;
    assert b1 / 16 == v1 % 16 && b1 % 16 == v2 / 4;
    assert b2 / 64 == v2 % 4 && b2 % 64 == v3;
    assert b0 % 4 * 16 + b1 / 16 == v1;
    assert b1 % 16 * 4 + b2 / 64 == v2;
  }

  /** A full group: three octets as four characters. */
  function EncodeGroup(b0: byte, b1: byte, b2: byte): (g: string)
    ensures |g| == 4 && Value(g[0]).Some? && Value(g[1]).Some? && Value(g[2]).Some? && Value(g[3]).Some?
  {
    var v := Sextets(b0, b1, b2);
    [Char(v[0]), Char(v[1]), Char(v[2]), Char(v[3])]
  }

  /** The last group of one or two octets, padded to four characters. */
  function EncodeFinal(b: seq<byte>): (g: string)
    requires 1 <= |b| <= 2
    ensures |g| == 4 && g[3] == Pad && (g[2] == Pad <==> |b| == 1)
    ensures InAlphabet(g[0]) && InAlphabet(g[1]) && InAlphabet(g[2])
  {
    if |b| == 1 then
      var v := Sextets(b[0], 0, 0);
      [Char(v[0]), Char(v[1]), Pad, Pad]
    else
      var v := Sextets(b[0], b[1], 0);
      [Char(v[0]), Char(v[1]), Char(v[2]), Pad]
  }

  /** Python's `base64.b64encode(b).decode()`. */
  function Encode(b: seq<byte>): (e: string)
    ensures |e| % 4 == 0
    decreases |b|
  {
    if |b| == 0 then ""
    else if |b| <= 2 then EncodeFinal(b)
    else EncodeGroup(b[0], b[1], b[2]) + Encode(b[3..])
  }

  /** An encoding uses only the alphabet and the pad. */
  lemma {:induction false} EncodeAlphabet(b: seq<byte>)
    ensures forall i :: 0 <= i < |Encode(b)| ==> InAlphabet(Encode(b)[i])
    decreases |b|
  {
    if |b| > 2 {
      EncodeAlphabet(b[3..]);
      var g, s := EncodeGroup(b[0], b[1], b[2]), Encode(b[3..]);
      assert Encode(b) == g + s;
      forall i | 0 <= i < |g + s| ensures InAlphabet((g + s)[i]) {
        if i >= 4 { assert (g + s)[i] == s[i - 4]; }
      }
    }
  }

  /** Four characters for every started group of three octets. */
  lemma {:induction false} EncodeLength(b: seq<byte>)
    ensures |Encode(b)| == 4 * ((|b| + 2) / 3)
    decreases |b|
  {
    if |b| > 2 {
      EncodeLength(b[3..]);
      assert (|b| + 2) / 3 == (|b[3..]| + 2) / 3 + 1;
    }
  }

  /**
   * The octets of one four-character group. Padding is accepted only in the
   * last group, and the pad bits must be zero (the canonical form that
   * section 3.5 allows a decoder to insist on).
   */
  function DecodeGroup(g: string, last: bool): (r: Option<seq<byte>>)
    requires |g| == 4
    ensures r.Some? ==> 1 <= |r.value| <= 3 && (!last ==> |r.value| == 3)
  {
    var v0, v1, v2, v3 := Value(g[0]), Value(g[1]), Value(g[2]), Value(g[3]);
    if v0.None? || v1.None? then None
    else if v2.Some? && v3.Some? then Some(Octets([v0.value, v1.value, v2.value, v3.value]))
    else if !last || g[3] != Pad || v3.Some? then None
    else if v2.Some? then
      if v2.value % 4 == 0 then Some(Octets([v0.value, v1.value, v2.value, 0])[..2]) else None
    else if g[2] == Pad && v1.value % 16 == 0 then Some(Octets([v0.value, v1.value, 0, 0])[..1])
    else None
  }

  function Decode(s: string): Option<seq<byte>>
    decreases |s|
  {
    if |s| == 0 then Some([])
    else if |s| < 4 then None
    else
      match DecodeGroup(s[..4], |s| == 4)
      case None => None
      case Some(g) =>
        match Decode(s[4..])
        case None => None
        case Some(rest) => Some(g + rest)
  }

  /** A full group decodes to its three octets, wherever it stands. */
  lemma DecodeEncodeGroup(b: seq<byte>, last: bool)
    requires |b| == 3
    ensures DecodeGroup(EncodeGroup(b[0], b[1], b[2]), last) == Some(b)
  {
    var v := Sextets(b[0], b[1], b[2]);
    assert [v[0], v[1], v[2], v[3]] == v;
    OctetsOfSextets(b[0], b[1], b[2]);
    assert [b[0], b[1], b[2]] == b;
  }

  /** A padded last group decodes to its one or two octets. */
  lemma DecodeEncodeFinal(b: seq<byte>)
    requires 1 <= |b| <= 2
    ensures DecodeGroup(EncodeFinal(b), true) == Some(b)
  {
    CharOfValue(Pad);
    if |b| == 1 {
      var v := Sextets(b[0], 0, 0);
      OctetsOfSextets(b[0], 0, 0);
      assert [v[0], v[1], 0, 0] == v;
      assert v[1] % 16 == 0;
      assert Octets(v)[..1] == b;
    } else {
      var v := Sextets(b[0], b[1], 0);
      OctetsOfSextets(b[0], b[1], 0);
      assert [v[0], v[1], v[2], 0] == v;
      assert v[2] % 4 == 0;
      assert Octets(v)[..2] == b;
    }
  }

  /** `Decode` reads one group, then the rest. */
  lemma DecodeGroups(g: string, rest: string, x: seq<byte>, y: seq<byte>)
    requires |g| == 4
    requires DecodeGroup(g, rest == "") == Some(x) && Decode(rest) == Some(y)
    ensures Decode(g + rest) == Some(x + y)
  {
    var s := g + rest;
    assert s[..4] == g && s[4..] == rest;
  }

  /** Decoding undoes encoding. */
  lemma {:induction false} DecodeEncode(b: seq<byte>)
    ensures Decode(Encode(b)) == Some(b)
    decreases |b|
  {
    if |b| == 0 {
    } else if |b| <= 2 {
      DecodeEncodeFinal(b);
      DecodeGroups(EncodeFinal(b), "", b, []);
      assert b + [] == b;
    } else {
      DecodeEncode(b[3..]);
      DecodePrepend(b[..3], Encode(b[3..]), b[3..]);
      assert b[..3] + b[3..] == b;
    }
  }

  /** The inductive step of `DecodeEncode`: a full group in front of a decodable rest. */
  lemma DecodePrepend(g: seq<byte>, rest: string, tail: seq<byte>)
    requires |g| == 3 && Decode(rest) == Some(tail)
    ensures Decode(EncodeGroup(g[0], g[1], g[2]) + rest) == Some(g + tail)
  {
    DecodeEncodeGroup(g, rest == "");
    DecodeGroups(EncodeGroup(g[0], g[1], g[2]), rest, g, tail);
  }

  /** Encoding undoes a successful decoding: `Decode` accepts only canonical encodings. */
  lemma {:induction false} EncodeDecode(s: string, b: seq<byte>)
    requires Decode(s) == Some(b)
    ensures Encode(b) == s
    decreases |s|
  {
    if |s| > 0 {
      var g := DecodeGroup(s[..4], |s| == 4).value;
      var rest := Decode(s[4..]).value;
      assert b == g + rest;
      EncodeDecode(s[4..], rest);
      EncodeGroupDecoded(s[..4], |s| == 4);
      assert s == s[..4] + s[4..];
      if |g| < 3 {
        assert rest == [] && b == g;
      } else {
        assert b[..3] == g && b[3..] == rest;
      }
    }
  }

  /** One group of `EncodeDecode`: a decoded group encodes back to its four characters. */
  lemma EncodeGroupDecoded(g: string, last: bool)
    requires |g| == 4 && DecodeGroup(g, last).Some?
    ensures var o := DecodeGroup(g, last).value;
      if |o| == 3 then EncodeGroup(o[0], o[1], o[2]) == g else EncodeFinal(o) == g
  {
    CharOfValue(g[0]); CharOfValue(g[1]); CharOfValue(g[2]); CharOfValue(g[3]);
    var v0, v1, v2, v3 := Value(g[0]), Value(g[1]), Value(g[2]), Value(g[3]);
    if v2.Some? && v3.Some? {
      SextetsOfOctets([v0.value, v1.value, v2.value, v3.value]);
    } else if v2.Some? {
      SextetsOfOctets([v0.value, v1.value, v2.value, 0]);
    } else {
      SextetsOfOctets([v0.value, v1.value, 0, 0]);
    }
  }

  /** Distinct octet strings have distinct encodings. */
  lemma EncodeInjective(a: seq<byte>, b: seq<byte>)
    requires Encode(a) == Encode(b)
    ensures a == b
  {
    DecodeEncode(a);
    DecodeEncode(b);
  }
}
