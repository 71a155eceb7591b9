/**
 * The two browser primitives the bridge's base64url helpers stand on, as the
 * HTML and Infra standards define them: `btoa` (the standard base64 encoding
 * of RFC 4648 section 4, with padding) and `atob` (the Infra standard's
 * forgiving-base64 decode). Encoding is split into two layers: bytes to six-bit
 * values, and six-bit values to characters of the alphabet.
 */
module Base64 {
  import opened Wrappers
  import opened Runtime

  /** A six-bit value, the index of one base64 character. */
  type sextet = v: int | 0 <= v < 64

  // ----------------------------------------------------------------- alphabet

  predicate IsStdSymbol(c: char) {
    ('A' <= c <= 'Z') || ('a' <= c <= 'z') || ('0' <= c <= '9') || c == '+' || c == '/'
  }

  predicate AllStdSymbols(s: string) {
    forall i :: 0 <= i < |s| ==> IsStdSymbol(s[i])
  }

  /** The character with value `v` in Table 1 of RFC 4648. */
  function Symbol(v: sextet): (c: char)
    ensures IsStdSymbol(c)
  {
    if v < 26 then ('A' as int + v) as char
    else if v < 52 then ('a' as int + v - 26) as char
    else if v < 62 then ('0' as int + v - 52) as char
    else if v == 62 then '+'
    else '/'
  }

  /** Table 1 of RFC 4648: the characters for the values 0 to 63, in order. */
  const StdAlphabet: string := "ABCDEFGHIJKLMNOPQRSTUVWXYZ" + "abcdefghijklmnopqrstuvwxyz" + "0123456789" + "+/"

  /** Symbol writes each value as its entry of Table 1. */
  lemma SymbolIsTable(v: sextet)
    ensures |StdAlphabet| == 64 && Symbol(v) == StdAlphabet[v]
  {
  }

  /** The value of a character of the alphabet: the inverse of Symbol. */
  function SymbolValue(c: char): (v: sextet)
    requires IsStdSymbol(c)
    ensures Symbol(v) == c
  {
    if 'A' <= c <= 'Z' then c as int - 'A' as int
    else if 'a' <= c <= 'z' then c as int - 'a' as int + 26
    else if '0' <= c <= '9' then c as int - '0' as int + 52
    else if c == '+' then 62
    else 63
  }

  lemma SymbolValueOfSymbol(v: sextet)
    ensures SymbolValue(Symbol(v)) == v
  {
  }

  /** The characters that spell a sequence of values. */
  function Spell(v: seq<sextet>): (s: string)
    ensures |s| == |v| && AllStdSymbols(s)
  {
    seq(|v|, i requires 0 <= i < |v| => Symbol(v[i]))
  }

  /** The values a string of alphabet characters spells. */
  function Values(s: string): (v: seq<sextet>)
    requires AllStdSymbols(s)
    ensures |v| == |s|
  {
    seq(|s|, i requires 0 <= i < |s| => SymbolValue(s[i]))
  }

  lemma ValuesOfSpell(v: seq<sextet>)
    ensures Values(Spell(v)) == v
  {
    forall i | 0 <= i < |v|
      ensures Values(Spell(v))[i] == v[i]
    {
      SymbolValueOfSymbol(v[i]);
    }
  }

  // ----------------------------------------------------------- bit packing

  /** Values of a final group of `r` bytes: none, two or three. */
  function TailSymbols(r: nat): nat {
    if r == 0 then 0 else r + 1
  }

  /** Bytes carried by `n` values: three per group of four, and one less than the values of a final partial group. */
  function DecodedLength(n: nat): nat {
    3 * (n / 4) + (if n % 4 == 0 then 0 else n % 4 - 1)
  }

  /** The 24 bits of three bytes, big-endian, as four six-bit values. */
  function SplitGroup(b0: byte, b1: byte, b2: byte): (v: seq<sextet>)
    ensures |v| == 4
  {
    [b0 / 4, b0 % 4 * 16 + b1 / 16, b1 % 16 * 4 + b2 / 64, b2 % 64]
  }

  /** A final one or two bytes: the first two or three values of a zero-filled group. */
  function SplitFinal(b: seq<byte>): (v: seq<sextet>)
    requires 1 <= |b| <= 2
    ensures |v| == |b| + 1
  {
    SplitGroup(b[0], if |b| == 2 then b[1] else 0, 0)[..|b| + 1]
  }

  /** RFC 4648 section 4: every three bytes become four six-bit values; no padding. */
  function Sextets(b: seq<byte>): (v: seq<sextet>)
    ensures |v| == 4 * (|b| / 3) + TailSymbols(|b| % 3)
    decreases |b|
  {
    if |b| == 0 then []
    else if |b| < 3 then SplitFinal(b)
    else SplitGroup(b[0], b[1], b[2]) + Sextets(b[3..])
  }

  /** Three bytes from the 24 bits of four values. */
  function JoinGroup(v: seq<sextet>): (b: seq<byte>)
    requires |v| == 4
    ensures |b| == 3
  {
    var b0: byte, b1: byte, b2: byte := v[0] as int * 4 + v[1] / 16, v[1] as int % 16 * 16 + v[2] / 4, v[2] as int % 4 * 64 + v[3];
    [b0, b1, b2]
  }

  /** Forgiving-base64 step 7: a final 12 or 18 bits lose their last 4 or 2 and give one or two bytes. */
  function JoinFinal(v: seq<sextet>): (b: seq<byte>)
    requires 2 <= |v| <= 3
    ensures |b| == |v| - 1
  {
    JoinGroup(v + (if |v| == 2 then [0, 0] else [0]))[..|v| - 1]
  }

  /** Forgiving-base64 steps 6-7: 24 bits per four values, then the final partial group. */
  function Join(v: seq<sextet>): (b: seq<byte>)
    requires |v| % 4 != 1
    ensures |b| == DecodedLength(|v|)
    decreases |v|
  {
    if |v| == 0 then []
    else if |v| < 4 then JoinFinal(v)
    else
      ShiftByFour(|v| - 4);
      JoinGroup(v[..4]) + Join(v[4..])
  }

  lemma ShiftByFour(n: nat)
    ensures (n + 4) % 4 == n % 4
  {
    var q := n / 4;
    assert n == 4 * q + n % 4;
    assert n + 4 == 4 * (q + 1) + n % 4;
  }

  lemma SplitArithmetic(b0: byte, b1: byte, b2: byte)
    ensures JoinGroup(SplitGroup(b0, b1, b2)) == [b0, b1, b2]
  {
    var v := SplitGroup(b0, b1, b2);
    assert v[1] / 16 == b0 % 4 && v[1] % 16 == b1 / 16 by { Digits16(b0 % 4, b1 / 16); }
    assert v[2] / 4 == b1 % 16 && v[2] % 4 == b2 / 64 by { Digits4(b1 % 16, b2 / 64); }
    assert v[0] as int * 4 + v[1] / 16 == b0;
    assert v[1] as int % 16 * 16 + v[2] / 4 == b1;
    assert v[2] as int % 4 * 64 + v[3] == b2;
  }

  /** Splitting `hi * 16 + lo` at 16 gives back its two digits. */
  lemma Digits16(hi: nat, lo: nat)
    requires lo < 16
    ensures (hi * 16 + lo) / 16 == hi && (hi * 16 + lo) % 16 == lo
  {
  }

  /** Splitting `hi * 4 + lo` at 4 gives back its two digits. */
  lemma Digits4(hi: nat, lo: nat)
    requires lo < 4
    ensures (hi * 4 + lo) / 4 == hi && (hi * 4 + lo) % 4 == lo
  {
  }

  lemma JoinFinalOfSplitFinal(b: seq<byte>)
    requires 1 <= |b| <= 2
    ensures JoinFinal(SplitFinal(b)) == b
  {
    var v := SplitFinal(b);
    if |b| == 1 {
      assert v + [0, 0] == SplitGroup(b[0], 0, 0);
      SplitArithmetic(b[0], 0, 0);
    } else {
      assert v + [0] == SplitGroup(b[0], b[1], 0);
      SplitArithmetic(b[0], b[1], 0);
    }
  }

  /** Joining the values of a split gives the bytes back, for every length. */
  lemma {:induction false} JoinSextets(b: seq<byte>)
    ensures |Sextets(b)| % 4 != 1
    ensures Join(Sextets(b)) == b
    decreases |b|
  {
    if |b| == 0 {
    } else if |b| < 3 {
      JoinFinalOfSplitFinal(b);
    } else {
      var g := SplitGroup(b[0], b[1], b[2]);
      var rest := Sextets(b[3..]);
      JoinSextets(b[3..]);
      assert Sextets(b) == g + rest;
      ShiftByFour(|rest|);
      assert (g + rest)[..4] == g && (g + rest)[4..] == rest;
      SplitArithmetic(b[0], b[1], b[2]);
      assert b == [b[0], b[1], b[2]] + b[3..];
    }
  }

  /** A group of three bytes and its four values carry the same 24 bits, most significant first. */
  lemma SplitGroupBits(b0: byte, b1: byte, b2: byte)
    ensures var v := SplitGroup(b0, b1, b2);
            v[0] as int * 262144 + v[1] as int * 4096 + v[2] as int * 64 + v[3] == b0 * 65536 + b1 * 256 + b2
  {
    assert b0 == b0 / 4 * 4 + b0 % 4;
    assert b1 == b1 / 16 * 16 + b1 % 16;
    assert b2 == b2 / 64 * 64 + b2 % 64;
  }

  /**
   * A final one or two bytes are the leading bits of their values, and the
   * bits left over are zero (RFC 4648 section 3.5): 8 bits and 4 zero bits,
   * or 16 bits and 2 zero bits.
   */
  lemma SplitFinalBits(b: seq<byte>)
    requires 1 <= |b| <= 2
    ensures |b| == 1 ==> SplitFinal(b)[0] as int * 64 + SplitFinal(b)[1] == b[0] as int * 16
    ensures |b| == 2 ==> SplitFinal(b)[0] as int * 4096 + SplitFinal(b)[1] as int * 64 + SplitFinal(b)[2] == (b[0] as int * 256 + b[1]) * 4
  {
    SplitGroupBits(b[0], if |b| == 2 then b[1] else 0, 0);
  }

  /** The k-th group of four values is the split of the k-th group of three bytes. */
  lemma {:induction false} SextetsGroup(b: seq<byte>, k: nat)
    requires k < |b| / 3
    ensures 4 * k + 4 <= |Sextets(b)|
    ensures Sextets(b)[4 * k..4 * k + 4] == SplitGroup(b[3 * k], b[3 * k + 1], b[3 * k + 2])
    decreases k
  {
    var g := SplitGroup(b[0], b[1], b[2]);
    var rest := Sextets(b[3..]);
    assert Sextets(b) == g + rest;
    if k > 0 {
      SextetsGroup(b[3..], k - 1);
      assert (g + rest)[4 * k..4 * k + 4] == rest[4 * (k - 1)..4 * (k - 1) + 4];
    }
  }

  /** After the whole groups, a final one or two bytes give the values of SplitFinal. */
  lemma {:induction false} SextetsFinal(b: seq<byte>)
    requires |b| % 3 != 0
    ensures 4 * (|b| / 3) <= |Sextets(b)|
    ensures Sextets(b)[4 * (|b| / 3)..] == SplitFinal(b[3 * (|b| / 3)..])
    decreases |b|
  {
    if |b| >= 3 {
      var g := SplitGroup(b[0], b[1], b[2]);
      var rest := Sextets(b[3..]);
      assert Sextets(b) == g + rest;
      SextetsFinal(b[3..]);
      assert b[3..][3 * (|b[3..]| / 3)..] == b[3 * (|b| / 3)..];
      assert (g + rest)[4 * (|b| / 3)..] == rest[4 * (|b[3..]| / 3)..];
    }
  }

  /** The last value of an encoding that ends in a partial group has its pad bits zero. */
  lemma PadBitsZero(b: seq<byte>)
    requires |b| % 3 != 0
    ensures |b| % 3 == 1 ==> Sextets(b)[|Sextets(b)| - 1] % 16 == 0
    ensures |b| % 3 == 2 ==> Sextets(b)[|Sextets(b)| - 1] % 4 == 0
  {
    var t := b[3 * (|b| / 3)..];
    LastSextet(b);
    FinalPadBits(t);
  }

  /** The last value of an encoding that ends in a partial group is the last value of SplitFinal. */
  lemma LastSextet(b: seq<byte>)
    requires |b| % 3 != 0
    ensures var t := b[3 * (|b| / 3)..];
            |t| == |b| % 3 && Sextets(b)[|Sextets(b)| - 1] == SplitFinal(t)[|t|]
  {
    var n := |b| / 3;
    var v := Sextets(b);
    SextetsFinal(b);
    assert v[|v| - 1] == v[4 * n..][|b| - 3 * n];
  }

  lemma FinalPadBits(t: seq<byte>)
    requires 1 <= |t| <= 2
    ensures |t| == 1 ==> SplitFinal(t)[1] % 16 == 0
    ensures |t| == 2 ==> SplitFinal(t)[2] % 4 == 0
  {
    if |t| == 1 {
      assert SplitFinal(t)[1] == t[0] % 4 * 16 + 0;
      Digits16(t[0] % 4, 0);
    } else {
      assert SplitFinal(t)[2] == t[1] % 16 * 4 + 0;
      Digits4(t[1] % 16, 0);
    }
  }

  // ----------------------------------------------------------------- btoa

  /** The unpadded standard base64 of some bytes. */
  function EncodeSymbols(b: seq<byte>): (s: string)
    ensures AllStdSymbols(s)
    ensures |s| == 4 * (|b| / 3) + TailSymbols(|b| % 3)
  {
    Spell(Sextets(b))
  }

  /** The `=` characters that complete a final group of `n % 3` bytes. */
  function Padding(n: nat): string {
    if n % 3 == 1 then "==" else if n % 3 == 2 then "=" else ""
  }

  /** A JavaScript string every character of which fits in a byte. */
  predicate IsBinaryString(s: string) {
    forall i :: 0 <= i < |s| ==> s[i] as int < 256
  }

  /** String.fromCharCode(...bytes): one character per byte, with the byte as its code. */
  function BinaryString(b: seq<byte>): (s: string)
    ensures |s| == |b| && IsBinaryString(s)
    ensures forall i :: 0 <= i < |b| ==> s[i] as int == b[i]
  {
    seq(|b|, i requires 0 <= i < |b| => b[i] as char)
  }

  /** The bytes a binary string stands for: what btoa encodes. */
  function Latin1(s: string): (b: seq<byte>)
    requires IsBinaryString(s)
    ensures |b| == |s|
    ensures forall i :: 0 <= i < |s| ==> b[i] == s[i] as int
  {
    seq(|s|, i requires 0 <= i < |s| => s[i] as int)
  }

  /** btoa: InvalidCharacterError on a character above U+00FF, otherwise padded standard base64. */
  function Btoa(s: string): (r: Result<string, Error>)
    ensures r.Success? <==> IsBinaryString(s)
    ensures r.Failure? ==> r.error == InvalidCharacter
    ensures r.Success? ==> |r.value| % 4 == 0 && |r.value| == 4 * ((|s| + 2) / 3)
    ensures r.Success? ==> forall i :: 0 <= i < |r.value| ==> IsStdSymbol(r.value[i]) || r.value[i] == '='
  {
    if IsBinaryString(s) then Success(EncodeSymbols(Latin1(s)) + Padding(|s|))
    else Failure(InvalidCharacter)
  }

  // ----------------------------------------------------------------- atob

  /** ASCII whitespace as the Infra standard defines it: TAB, LF, FF, CR and SPACE. */
  predicate IsAsciiWhitespace(c: char) {
    c == '\t' || c == '\n' || c == '\U{000C}' || c == '\r' || c == ' '
  }

  /** Forgiving-base64 step 1: every other character is kept, in order. */
  function RemoveWhitespace(s: string): (r: string)
    ensures |r| <= |s|
    ensures forall i :: 0 <= i < |r| ==> !IsAsciiWhitespace(r[i])
    decreases |s|
  {
    if |s| == 0 then []
    else (if IsAsciiWhitespace(s[0]) then [] else [s[0]]) + RemoveWhitespace(s[1..])
  }

  /** RemoveWhitespace keeps exactly the characters that are not whitespace. */
  lemma {:induction false} RemoveWhitespaceKeeps(s: string)
    ensures forall c :: c in RemoveWhitespace(s) <==> c in s && !IsAsciiWhitespace(c)
    decreases |s|
  {
    if |s| > 0 {
      RemoveWhitespaceKeeps(s[1..]);
      assert s == [s[0]] + s[1..];
    }
  }

  /**
   * Forgiving-base64 step 2: a length divisible by four loses one or two
   * final `=`, as many as there are; any other text is kept whole.
   */
  function StripPadding(d: string): (r: string)
    ensures |d| - 2 <= |r| <= |d| && r == d[..|r|]
    ensures forall i :: |r| <= i < |d| ==> d[i] == '='
    ensures |r| < |d| ==> |d| % 4 == 0
    ensures |d| % 4 == 0 && |d| >= 1 && d[|d| - 1] == '=' ==> |r| < |d|
    ensures |d| % 4 == 0 && |d| >= 2 && d[|d| - 1] == '=' && d[|d| - 2] == '=' ==> |r| == |d| - 2
  {
    if |d| % 4 == 0 && |d| >= 2 && d[|d| - 1] == '=' && d[|d| - 2] == '=' then d[..|d| - 2]
    else if |d| % 4 == 0 && |d| >= 1 && d[|d| - 1] == '=' then d[..|d| - 1]
    else d
  }

  /** The characters the decode goes on to check and decode. */
  function Cleaned(data: string): string {
    StripPadding(RemoveWhitespace(data))
  }

  /** The unpadded standard base64 decode of alphabet characters. */
  function DecodeSymbols(d: string): (b: seq<byte>)
    requires AllStdSymbols(d) && |d| % 4 != 1
    ensures |b| == DecodedLength(|d|)
  {
    Join(Values(d))
  }

  /** The forgiving-base64 decode: steps 3 and 4 reject, steps 6 and 7 decode. */
  function ForgivingDecode(data: string): (r: Result<seq<byte>, Error>)
    ensures r.Success? <==> |Cleaned(data)| % 4 != 1 && AllStdSymbols(Cleaned(data))
    ensures r.Success? ==> |r.value| == DecodedLength(|Cleaned(data)|)
    ensures r.Failure? ==> r.error == InvalidCharacter
  {
    var d := Cleaned(data);
    if |d| % 4 == 1 || !AllStdSymbols(d) then Failure(InvalidCharacter)
    else Success(DecodeSymbols(d))
  }

  /** atob: the decoded bytes as a binary string, or InvalidCharacterError. */
  function Atob(s: string): (r: Result<string, Error>)
    ensures r.Success? <==> ForgivingDecode(s).Success?
    ensures r.Success? ==> IsBinaryString(r.value) && Latin1(r.value) == ForgivingDecode(s).value
  {
    match ForgivingDecode(s)
    case Failure(e) => Failure(e)
    case Success(bytes) => Success(BinaryString(bytes))
  }

  // ----------------------------------------------------------------- lemmas

  /** Decoding the symbols of an encoding gives the bytes back, for every length. */
  lemma DecodeEncodeSymbols(b: seq<byte>)
    ensures |EncodeSymbols(b)| % 4 != 1
    ensures DecodeSymbols(EncodeSymbols(b)) == b
  {
    JoinSextets(b);
    ValuesOfSpell(Sextets(b));
  }

  /** Text without whitespace is its own step-1 result. */
  lemma NoWhitespaceUnchanged(s: string)
    requires forall i :: 0 <= i < |s| ==> !IsAsciiWhitespace(s[i])
    ensures RemoveWhitespace(s) == s
    decreases |s|
  {
    if |s| > 0 {
      NoWhitespaceUnchanged(s[1..]);
      assert [s[0]] + s[1..] == s;
    }
  }

  lemma {:induction false} RemoveWhitespaceAppend(a: string, b: string)
    ensures RemoveWhitespace(a + b) == RemoveWhitespace(a) + RemoveWhitespace(b)
    decreases |a|
  {
    if |a| > 0 {
      assert (a + b)[1..] == a[1..] + b;
      RemoveWhitespaceAppend(a[1..], b);
    } else {
      assert a + b == b;
    }
  }

  /** Alphabet characters followed by the `=` that complete their last group decode as the characters alone. */
  lemma DecodePadded(t: string, p: string)
    requires AllStdSymbols(t) && |t| % 4 != 1
    requires forall i :: 0 <= i < |p| ==> p[i] == '='
    requires |p| < 4 && |t + p| % 4 == 0
    ensures ForgivingDecode(t + p) == Success(DecodeSymbols(t))
  {
    NoWhitespaceUnchanged(t + p);
    StripPaddingOfPadded(t, p);
  }

  lemma StripPaddingOfPadded(t: string, p: string)
    requires AllStdSymbols(t) && |t| % 4 != 1
    requires forall i :: 0 <= i < |p| ==> p[i] == '='
    requires |p| < 4 && |t + p| % 4 == 0
    ensures StripPadding(t + p) == t
  {
    var r := t + p;
    if |p| == 0 {
      assert r == t;
    } else if |p| == 1 {
      assert r[..|r| - 1] == t;
    } else {
      assert |p| == 2;
      assert r[..|r| - 2] == t;
    }
  }

  /** The encoding test vectors of section 10 of RFC 4648. */
  lemma Rfc4648Vectors()
    ensures Btoa("") == Success("")
    ensures Btoa("f") == Success("Zg==")
    ensures Btoa("fo") == Success("Zm8=")
    ensures Btoa("foo") == Success("Zm9v")
    ensures Btoa("foob") == Success("Zm9vYg==")
    ensures Btoa("fooba") == Success("Zm9vYmE=")
    ensures Btoa("foobar") == Success("Zm9vYmFy")
  {
    BtoaOf("", [], "", "");
    VectorF();
    VectorFo();
    VectorFoo();
    VectorFoob();
    VectorFooba();
    VectorFoobar();
  }

  /** Two of the vectors of section 10 of RFC 4648 decoded by atob. */
  lemma Rfc4648DecodeVectors()
    ensures Atob("Zm9vYg==") == Success("foob")
    ensures Atob("Zm9vYmE=") == Success("fooba")
  {
    VectorFoob();
    VectorFooba();
    AtobBtoa("foob");
    AtobBtoa("fooba");
  }

  /** btoa of a binary string is the encoding of its bytes, then the padding. */
  lemma BtoaOf(s: string, b: seq<byte>, t: string, e: string)
    requires IsBinaryString(s) && Latin1(s) == b
    requires EncodeSymbols(b) == t && t + Padding(|s|) == e
    ensures Btoa(s) == Success(e)
  {
  }

  lemma SextetsOne(x: byte)
    ensures Sextets([x]) == [x / 4, x % 4 * 16]
  {
  }

  lemma SextetsTwo(x: byte, y: byte)
    ensures Sextets([x, y]) == [x / 4, x % 4 * 16 + y / 16, y % 16 * 4]
  {
  }

  lemma SextetsThree(x: byte, y: byte, z: byte)
    ensures Sextets([x, y, z]) == SplitGroup(x, y, z)
  {
    assert [x, y, z][3..] == [];
  }

  /** Encoding more than three bytes is encoding the first three, then the rest. */
  lemma EncodeSymbolsCons(b: seq<byte>)
    requires |b| > 3
    ensures EncodeSymbols(b) == EncodeSymbols(b[..3]) + EncodeSymbols(b[3..])
  {
    var g := SplitGroup(b[0], b[1], b[2]);
    var rest := Sextets(b[3..]);
    assert Sextets(b) == g + rest;
    SextetsThree(b[0], b[1], b[2]);
    assert b[..3] == [b[0], b[1], b[2]];
    assert Spell(g + rest) == Spell(g) + Spell(rest);
  }

  lemma EncodeF()
    ensures EncodeSymbols([102]) == "Zg"
  {
    SextetsOne(102);
    assert Spell([25, 32]) == "Zg";
  }

  lemma EncodeFo()
    ensures EncodeSymbols([102, 111]) == "Zm8"
  {
    SextetsTwo(102, 111);
    assert Spell([25, 38, 60]) == "Zm8";
  }

  /** Two bytes whose symbols include values 62 and 63, the two that differ between the alphabets. */
  lemma EncodeHighPair()
    ensures EncodeSymbols([251, 255]) == "+/8"
  {
    SextetsTwo(251, 255);
    assert Spell([62, 63, 60]) == "+/8";
  }

  lemma EncodeFoo()
    ensures EncodeSymbols([102, 111, 111]) == "Zm9v"
  {
    SextetsThree(102, 111, 111);
    assert SplitGroup(102, 111, 111) == [25, 38, 61, 47];
    assert Spell([25, 38, 61, 47]) == "Zm9v";
  }

  lemma EncodeB()
    ensures EncodeSymbols([98]) == "Yg"
  {
    SextetsOne(98);
    assert Spell([24, 32]) == "Yg";
  }

  lemma EncodeBa()
    ensures EncodeSymbols([98, 97]) == "YmE"
  {
    SextetsTwo(98, 97);
    assert Spell([24, 38, 4]) == "YmE";
  }

  lemma EncodeBar()
    ensures EncodeSymbols([98, 97, 114]) == "YmFy"
  {
    SextetsThree(98, 97, 114);
    assert SplitGroup(98, 97, 114) == [24, 38, 5, 50];
    assert Spell([24, 38, 5, 50]) == "YmFy";
  }

  /** "foo" followed by a final group encodes as "Zm9v" followed by that group's symbols. */
  lemma EncodeFooThen(rest: seq<byte>, t: string)
    requires 0 < |rest| <= 3 && EncodeSymbols(rest) == t
    ensures EncodeSymbols([102, 111, 111] + rest) == "Zm9v" + t
  {
    var b := [102, 111, 111] + rest;
    EncodeSymbolsCons(b);
    assert b[..3] == [102, 111, 111] && b[3..] == rest;
    EncodeFoo();
  }

  lemma VectorF()
    ensures Btoa("f") == Success("Zg==")
  {
    EncodeF();
    BtoaOf("f", [102], "Zg", "Zg==");
  }

  lemma VectorFo()
    ensures Btoa("fo") == Success("Zm8=")
  {
    EncodeFo();
    BtoaOf("fo", [102, 111], "Zm8", "Zm8=");
  }

  lemma VectorFoo()
    ensures Btoa("foo") == Success("Zm9v")
  {
    EncodeFoo();
    BtoaOf("foo", [102, 111, 111], "Zm9v", "Zm9v");
  }

  lemma VectorFoob()
    ensures Btoa("foob") == Success("Zm9vYg==")
  {
    EncodeB();
    EncodeFooThen([98], "Yg");
    BtoaOf("foob", [102, 111, 111] + [98], "Zm9v" + "Yg", "Zm9vYg==");
  }

  lemma VectorFooba()
    ensures Btoa("fooba") == Success("Zm9vYmE=")
  {
    EncodeBa();
    EncodeFooThen([98, 97], "YmE");
    BtoaOf("fooba", [102, 111, 111] + [98, 97], "Zm9v" + "YmE", "Zm9vYmE=");
  }

  lemma VectorFoobar()
    ensures Btoa("foobar") == Success("Zm9vYmFy")
  {
    EncodeBar();
    EncodeFooThen([98, 97, 114], "YmFy");
    BtoaOf("foobar", [102, 111, 111] + [98, 97, 114], "Zm9v" + "YmFy", "Zm9vYmFy");
  }

  /** btoa followed by atob gives back the binary string. */
  lemma AtobBtoa(s: string)
    requires IsBinaryString(s)
    ensures Atob(Btoa(s).value) == Success(s)
  {
    var b := Latin1(s);
    var t := EncodeSymbols(b);
    assert Btoa(s).value == t + Padding(|s|);
    DecodeEncodeSymbols(b);
    DecodePadded(t, Padding(|s|));
    assert ForgivingDecode(t + Padding(|s|)) == Success(b);
    assert BinaryString(b) == s;
  }
}
