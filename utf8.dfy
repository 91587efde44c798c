/**
 * UTF-8 as defined by RFC 3629: what Python's `str.encode()` does with its
 * default codec. A Dafny `char` is a Unicode scalar value, so every string
 * has an encoding. `Decode` is the strict decoder (no overlong forms, no
 * surrogates, nothing above U+10FFFF), given as the partner of `Encode`.
 */
module Utf8 {
  import opened Wrappers

  /** The one to four octets that encode `c`. */
  function EncodeChar(c: char): (b: seq<byte>)
    ensures 1 <= |b| <= 4
    ensures |b| == 1 <==> (c as int) < 0x80
  {
    var n := c as int;
    if n < 0x80 then [n]
    else if n < 0x800 then [0xC0 + n / 64, 0x80 + n % 64]
    else if n < 0x10000 then [0xE0 + n / 4096, 0x80 + n / 64 % 64, 0x80 + n % 64]
    else [0xF0 + n / 262144, 0x80 + n / 4096 % 64, 0x80 + n / 64 % 64, 0x80 + n % 64]
  }

  function Encode(s: string): (b: seq<byte>)
    ensures |s| <= |b| <= 4 * |s|
  {
    if s == [] then [] else EncodeChar(s[0]) + Encode(s[1..])
  }

  /** A continuation octet, `10xxxxxx`. */
  predicate IsContinuation(x: byte)
  {
    0x80 <= x < 0xC0
  }

  /**
   * The scalar value `n` read from a sequence of `len` octets, provided
   * `len` is the shortest form for `n` and `n` is a scalar value.
   */
  function Scalar(n: nat, len: nat): Option<(char, nat)>
  {
    if (len == 2 && n < 0x80) || (len == 3 && n < 0x800) || (len == 4 && n < 0x10000) then None
    else if 0xD800 <= n < 0xE000 || 0x10FFFF < n then None
    else Some((n as char, len))
  }

  /** The first character of `b` and the number of octets it takes. */
  function DecodeChar(b: seq<byte>): (r: Option<(char, nat)>)
    requires |b| > 0
    ensures r.Some? ==> 1 <= r.value.1 <= |b|
  {
    var b0: int := b[0];
    if b0 < 0x80 then Some((b0 as char, 1))
    else if 0xC0 <= b0 < 0xE0 then
      if |b| < 2 || !IsContinuation(b[1]) then None
      else Scalar((b0 - 0xC0) * 64 + (b[1] as int - 0x80), 2)
    else if 0xE0 <= b0 < 0xF0 then
      if |b| < 3 || !IsContinuation(b[1]) || !IsContinuation(b[2]) then None
      else Scalar((b0 - 0xE0) * 4096 + (b[1] as int - 0x80) * 64 + (b[2] as int - 0x80), 3)
    else if 0xF0 <= b0 < 0xF8 then
      if |b| < 4 || !IsContinuation(b[1]) || !IsContinuation(b[2]) || !IsContinuation(b[3]) then None
      else Scalar((b0 - 0xF0) * 262144 + (b[1] as int - 0x80) * 4096 + (b[2] as int - 0x80) * 64 + (b[3] as int - 0x80), 4)
    else None
  }

  function Decode(b: seq<byte>): Option<string>
    decreases |b|
  {
    if |b| == 0 then Some("")
    else
      match DecodeChar(b)
      case None => None
      case Some((c, k)) =>
        match Decode(b[k..])
        case None => None
        case Some(rest) => Some([c] + rest)
  }

  /** The decoder reads back one encoded character, whatever follows it. */
  lemma DecodeEncodeChar(c: char, rest: seq<byte>)
    ensures DecodeChar(EncodeChar(c) + rest) == Some((c, |EncodeChar(c)|))
  {
    var n := c as int;
    var b := EncodeChar(c) + rest;
    if n < 0x80 {
    } else if n < 0x800 {
      assert (n / 64) * 64 + n % 64 == n;
    } else if n < 0x10000 {
      Digits(n);
    } else {
      Digits(n);
      assert (n / 262144) * 262144 + (n / 4096 % 64) * 4096 == (n / 4096) * 4096;
    }
  }

  /** Base-64 digits of a scalar value, as the multi-octet forms split it. */
  lemma Digits(n: nat)
    ensures (n / 4096) * 4096 + (n / 64 % 64) * 64 + n % 64 == n
    ensures n / 4096 / 64 == n / 262144 && n / 4096 % 64 + (n / 262144) * 64 == n / 4096
  {
    var q := n / 64;
    assert n == q * 64 + n % 64;
    assert q == (q / 64) * 64 + q % 64;
    assert n / 4096 == q / 64;
    assert n / 262144 == q / 64 / 64;
  }

  /** Decoding undoes encoding. */
  lemma {:induction false} DecodeEncode(s: string)
    ensures Decode(Encode(s)) == Some(s)
  {
    if s != [] {
      var head, tail := EncodeChar(s[0]), Encode(s[1..]);
      DecodeEncodeChar(s[0], tail);
      assert (head + tail)[|head|..] == tail;
      DecodeEncode(s[1..]);
      assert [s[0]] + s[1..] == s;
    }
  }
}
