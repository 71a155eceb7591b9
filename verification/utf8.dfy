/**
 * UTF-8 as `new TextEncoder().encode(s)` produces it (the WHATWG Encoding
 * Standard's UTF-8 encoder, which is the encoding of RFC 3629), together with a
 * validating RFC 3629 decoder that serves as its inverse.
 */
module Utf8 {
  import opened Wrappers
  import opened Runtime

  predicate IsContinuation(b: byte) {
    0x80 <= b < 0xC0
  }

  /** The one to four bytes RFC 3629 section 3 assigns to one scalar value. */
  function EncodeScalar(c: char): (r: seq<byte>)
    ensures 1 <= |r| <= 4
    ensures |r| == 1 <==> c as int < 0x80
    ensures |r| == 1 ==> r[0] == c as int
    ensures forall i :: 1 <= i < |r| ==> IsContinuation(r[i])
  {
    var cp := c as int;
    if cp < 0x80 then
      [cp]
    else if cp < 0x800 then
      [0xC0 + cp / 64, 0x80 + cp % 64]
    else if cp < 0x1_0000 then
      [0xE0 + cp / 64 / 64, 0x80 + cp / 64 % 64, 0x80 + cp % 64]
    else
      [0xF0 + cp / 64 / 64 / 64, 0x80 + cp / 64 / 64 % 64, 0x80 + cp / 64 % 64, 0x80 + cp % 64]
  }

  /** UTF-8 encoding of a string, scalar by scalar. */
  function Encode(s: string): (r: seq<byte>)
    ensures |s| <= |r| <= 4 * |s|
    decreases |s|
  {
    if |s| == 0 then [] else EncodeScalar(s[0]) + Encode(s[1..])
  }

  function Low6(b: byte): int {
    b - 0x80
  }

  /** Decodes the scalar value at the head of `b` and says how many bytes it took; None on ill-formed input. */
  function DecodeScalar(b: seq<byte>): (r: Option<(char, nat)>)
    requires |b| > 0
    ensures r.Some? ==> 1 <= r.value.1 <= |b|
  {
    var b0 := b[0];
    if b0 < 0x80 then
      Some((b0 as char, 1))
    else if 0xC2 <= b0 <= 0xDF then
      if |b| >= 2 && IsContinuation(b[1]) then
        Some((((b0 - 0xC0) * 64 + Low6(b[1])) as char, 2))
      else None
    else if 0xE0 <= b0 <= 0xEF then
      if |b| >= 3 && IsContinuation(b[1]) && IsContinuation(b[2]) then
        var cp := ((b0 - 0xE0) * 64 + Low6(b[1])) * 64 + Low6(b[2]);
        if cp < 0x800 || (0xD800 <= cp < 0xE000) then None else Some((cp as char, 3))
      else None
    else if 0xF0 <= b0 <= 0xF4 then
      if |b| >= 4 && IsContinuation(b[1]) && IsContinuation(b[2]) && IsContinuation(b[3]) then
        var cp := (((b0 - 0xF0) * 64 + Low6(b[1])) * 64 + Low6(b[2])) * 64 + Low6(b[3]);
        if cp < 0x1_0000 || cp > 0x10_FFFF then None else Some((cp as char, 4))
      else None
    else
      None
  }

  /** Decodes a whole byte sequence; None unless it is well-formed UTF-8. */
  function Decode(b: seq<byte>): Option<string>
    decreases |b|
  {
    if |b| == 0 then Some([])
    else match DecodeScalar(b)
      case None => None
      case Some((c, n)) =>
        match Decode(b[n..])
        case None => None
        case Some(rest) => Some([c] + rest)
  }

  lemma DecodeTwo(c: char, b: seq<byte>)
    requires 0x80 <= c as int < 0x800
    requires |b| >= 2 && b[0] == 0xC0 + c as int / 64 && b[1] == 0x80 + c as int % 64
    ensures DecodeScalar(b) == Some((c, 2))
  {
    var cp := c as int;
    assert (b[0] - 0xC0) * 64 + Low6(b[1]) == cp;
  }

  lemma DecodeThree(c: char, b: seq<byte>)
    requires 0x800 <= c as int < 0x1_0000
    requires |b| >= 3 && b[0] == 0xE0 + c as int / 64 / 64
    requires b[1] == 0x80 + c as int / 64 % 64 && b[2] == 0x80 + c as int % 64
    ensures DecodeScalar(b) == Some((c, 3))
  {
    var cp := c as int;
    var q := cp / 64;
    assert q * 64 + cp % 64 == cp;
    assert q / 64 * 64 + q % 64 == q;
    assert ((b[0] - 0xE0) * 64 + Low6(b[1])) * 64 + Low6(b[2]) == cp;
  }

  lemma DecodeFour(c: char, b: seq<byte>)
    requires 0x1_0000 <= c as int
    requires |b| >= 4 && b[0] == 0xF0 + c as int / 64 / 64 / 64
    requires b[1] == 0x80 + c as int / 64 / 64 % 64
    requires b[2] == 0x80 + c as int / 64 % 64 && b[3] == 0x80 + c as int % 64
    ensures DecodeScalar(b) == Some((c, 4))
  {
    var cp := c as int;
    var q1 := cp / 64;
    var q2 := q1 / 64;
    assert q1 * 64 + cp % 64 == cp;
    assert q2 * 64 + q1 % 64 == q1;
    assert q2 / 64 * 64 + q2 % 64 == q2;
    assert (((b[0] - 0xF0) * 64 + Low6(b[1])) * 64 + Low6(b[2])) * 64 + Low6(b[3]) == cp;
  }

  /** The bytes EncodeScalar gives a scalar decode back to it, whatever follows them. */
  lemma DecodeScalarOfEncodeScalar(c: char, rest: seq<byte>)
    ensures DecodeScalar(EncodeScalar(c) + rest) == Some((c, |EncodeScalar(c)|))
  {
    var cp := c as int;
    var b := EncodeScalar(c) + rest;
    if cp < 0x80 {
    } else if cp < 0x800 {
      DecodeTwo(c, b);
    } else if cp < 0x1_0000 {
      DecodeThree(c, b);
    } else {
      DecodeFour(c, b);
    }
  }

  /** TextEncoder output is well-formed UTF-8 that decodes back to the very string encoded. */
  lemma {:induction false} DecodeEncode(s: string)
    ensures Decode(Encode(s)) == Some(s)
    decreases |s|
  {
    if |s| > 0 {
      var e := EncodeScalar(s[0]);
      DecodeScalarOfEncodeScalar(s[0], Encode(s[1..]));
      assert Encode(s) == e + Encode(s[1..]);
      assert (e + Encode(s[1..]))[|e|..] == Encode(s[1..]);
      DecodeEncode(s[1..]);
      assert [s[0]] + s[1..] == s;
    }
  }

  /** Text made only of ASCII characters encodes to one byte per character, with the same codes. */
  lemma {:induction false} EncodeAscii(s: string)
    requires forall i :: 0 <= i < |s| ==> s[i] as int < 0x80
    ensures |Encode(s)| == |s|
    ensures forall i :: 0 <= i < |s| ==> Encode(s)[i] == s[i] as int
    decreases |s|
  {
    if |s| > 0 {
      EncodeAscii(s[1..]);
    }
  }
}
