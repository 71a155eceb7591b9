/**
 * The base64url helpers of the bridge (bridge.mjs). `toBase64Url` runs the
 * bytes through `btoa`, maps the standard alphabet of RFC 4648 section 4 onto
 * the URL-safe alphabet of section 5 and drops the trailing `=` padding, as
 * section 3.2 permits. `fromBase64Url` maps the alphabet back, re-pads to a
 * multiple of four and hands the result to `atob`. `Sign` is the bridge's
 * `sign` call built on the two.
 */
module Bridge {
  import opened Wrappers
  import opened Runtime
  import opened Base64

  predicate IsUrlSymbol(c: char) {
    ('A' <= c <= 'Z') || ('a' <= c <= 'z') || ('0' <= c <= '9') || c == '-' || c == '_'
  }

  predicate AllUrlSymbols(s: string) {
    forall i :: 0 <= i < |s| ==> IsUrlSymbol(s[i])
  }

  /** `s.replace(/from/g, to)` for a one-character pattern. */
  function ReplaceAll(s: string, from: char, to: char): (r: string)
    ensures |r| == |s|
    ensures from != to ==> from !in r
    ensures forall c :: c in r ==> c in s || c == to
  {
    seq(|s|, i requires 0 <= i < |s| => if s[i] == from then to else s[i])
  }

  /** The mapping of toBase64Url: `+` to `-`, then `/` to `_`. */
  function ToUrlAlphabet(s: string): (r: string)
    ensures |r| == |s| && '+' !in r && '/' !in r
    ensures forall i :: 0 <= i < |s| && s[i] == '+' ==> r[i] == '-'
    ensures forall i :: 0 <= i < |s| && s[i] == '/' ==> r[i] == '_'
    ensures forall i :: 0 <= i < |s| && s[i] != '+' && s[i] != '/' ==> r[i] == s[i]
  {
    ReplaceAll(ReplaceAll(s, '+', '-'), '/', '_')
  }

  /** The mapping of fromBase64Url: `-` to `+`, then `_` to `/`. */
  function FromUrlAlphabet(s: string): (r: string)
    ensures |r| == |s| && '-' !in r && '_' !in r
    ensures forall i :: 0 <= i < |s| && s[i] == '-' ==> r[i] == '+'
    ensures forall i :: 0 <= i < |s| && s[i] == '_' ==> r[i] == '/'
    ensures forall i :: 0 <= i < |s| && s[i] != '-' && s[i] != '_' ==> r[i] == s[i]
  {
    ReplaceAll(ReplaceAll(s, '-', '+'), '_', '/')
  }

  /** `s.replace(/c+$/g, "")`: drops the longest run of `c` that ends the string. */
  function StripTrailing(s: string, c: char): (r: string)
    ensures |r| <= |s| && r == s[..|r|]
    ensures forall i :: |r| <= i < |s| ==> s[i] == c
    ensures |r| == 0 || r[|r| - 1] != c
    decreases |s|
  {
    if |s| > 0 && s[|s| - 1] == c then StripTrailing(s[..|s| - 1], c) else s
  }

  /**
   * toBase64Url: btoa of the bytes as a binary string (always accepted),
   * mapped to the URL-safe alphabet, trailing `=` removed. The result is the
   * unpadded standard encoding written in the URL-safe alphabet.
   */
  function ToBase64Url(bytes: seq<byte>): (r: string)
    ensures r == ToUrlAlphabet(EncodeSymbols(bytes))
    ensures AllUrlSymbols(r)
    ensures |r| == 4 * (|bytes| / 3) + TailSymbols(|bytes| % 3)
  {
    var b64 := Btoa(BinaryString(bytes)).value;
    BtoaThenStrip(bytes);
    UrlAlphabetOfStd(EncodeSymbols(bytes));
    StripTrailing(ToUrlAlphabet(b64), '=')
  }

  /** The re-padding loop of fromBase64Url: append `=` while the length is not a multiple of 4. */
  function PadTo4(s: string): (r: string)
    ensures |r| % 4 == 0
    ensures |s| <= |r| < |s| + 4
    ensures r[..|s|] == s
    ensures forall i :: |s| <= i < |r| ==> r[i] == '='
    decreases (4 - |s| % 4) % 4
  {
    if |s| % 4 == 0 then s else PadTo4(s + "=")
  }

  /** The copy loop of fromBase64Url: `bytes[i] = bin.charCodeAt(i)` into a fresh Uint8Array, for every i. */
  function CharCodes(bin: string): (b: seq<byte>)
    ensures |b| == |bin|
    ensures forall i :: 0 <= i < |bin| ==> b[i] == bin[i] as int % 256
    decreases |bin|
  {
    if |bin| == 0 then [] else CharCodes(bin[..|bin| - 1]) + [ByteOf(bin[|bin| - 1] as int)]
  }

  /**
   * fromBase64Url: map the alphabet back, re-pad, atob, copy; atob's
   * InvalidCharacterError is passed on. The bytes are exactly those the
   * forgiving-base64 decode gives for the re-padded text.
   */
  function FromBase64Url(b64url: string): (r: Result<seq<byte>, Error>)
    ensures r.Success? <==> ForgivingDecode(PadTo4(FromUrlAlphabet(b64url))).Success?
    ensures r.Success? ==> r.value == ForgivingDecode(PadTo4(FromUrlAlphabet(b64url))).value
    ensures r.Failure? ==> r.error == InvalidCharacter
    ensures |b64url| % 4 == 1 ==> r == Failure(InvalidCharacter)
  {
    PaddedOneMod4Rejected(b64url);
    var bin :- Atob(PadTo4(FromUrlAlphabet(b64url)));
    CharCodesOfLatin1(bin);
    Success(CharCodes(bin))
  }

  /** ArweaveBridge.sign: decode the message, sign it externally, encode the signature. */
  function Sign(jwk: Value, messageB64Url: string, sign: SignFn): (r: Result<string, Error>)
    ensures var m := FromBase64Url(messageB64Url);
            m.Failure? ==> r == Failure(m.error)
    ensures var m := FromBase64Url(messageB64Url);
            m.Success? && sign(jwk, m.value).Failure? ==> r == Failure(sign(jwk, m.value).error)
    ensures var m := FromBase64Url(messageB64Url);
            r.Success? <==> m.Success? && sign(jwk, m.value).Success?
    ensures var m := FromBase64Url(messageB64Url);
            r.Success? ==>
              r.value == ToBase64Url(sign(jwk, m.value).value) &&
              AllUrlSymbols(r.value) &&
              FromBase64Url(r.value) == sign(jwk, m.value)
  {
    var bytes :- FromBase64Url(messageB64Url);
    var sig :- sign(jwk, bytes);
    RoundTrip(sig);
    ToBase64UrlShape(sig);
    Success(ToBase64Url(sig))
  }

  // ----------------------------------------------------------------- lemmas

  /** The decode alphabet mapping undoes the encode mapping, and the other way round. */
  lemma UrlAlphabetInverse(s: string)
    ensures (forall i :: 0 <= i < |s| ==> s[i] != '-' && s[i] != '_') ==> FromUrlAlphabet(ToUrlAlphabet(s)) == s
    ensures (forall i :: 0 <= i < |s| ==> s[i] != '+' && s[i] != '/') ==> ToUrlAlphabet(FromUrlAlphabet(s)) == s
  {
  }

  /** Between the two alphabets the mappings are bijections. */
  lemma UrlAlphabetOfStd(s: string)
    ensures AllStdSymbols(s) ==> AllUrlSymbols(ToUrlAlphabet(s)) && FromUrlAlphabet(ToUrlAlphabet(s)) == s
    ensures AllUrlSymbols(s) ==> AllStdSymbols(FromUrlAlphabet(s)) && ToUrlAlphabet(FromUrlAlphabet(s)) == s
  {
    UrlAlphabetInverse(s);
  }

  lemma {:induction false} StripTrailingExact(t: string, u: string, c: char)
    requires forall i :: 0 <= i < |u| ==> u[i] == c
    requires |t| == 0 || t[|t| - 1] != c
    ensures StripTrailing(t + u, c) == t
    decreases |u|
  {
    if |u| > 0 {
      assert (t + u)[..|t + u| - 1] == t + u[..|u| - 1];
      StripTrailingExact(t, u[..|u| - 1], c);
    } else {
      assert t + u == t;
    }
  }

  /** btoa's characters over the URL-safe alphabet, with the padding gone, are the unpadded encoding in that alphabet. */
  lemma BtoaThenStrip(bytes: seq<byte>)
    ensures StripTrailing(ToUrlAlphabet(Btoa(BinaryString(bytes)).value), '=') == ToUrlAlphabet(EncodeSymbols(bytes))
  {
    var bin := BinaryString(bytes);
    assert Latin1(bin) == bytes;
    var syms := EncodeSymbols(bytes);
    var pad := Padding(|bytes|);
    assert Btoa(bin).value == syms + pad;
    assert ToUrlAlphabet(syms + pad) == ToUrlAlphabet(syms) + pad;
    UrlAlphabetOfStd(syms);
    StripTrailingExact(ToUrlAlphabet(syms), pad, '=');
  }

  /** toBase64Url output is URL-safe characters only (no `+`, `/` or `=`), of the unpadded standard length. */
  lemma ToBase64UrlShape(bytes: seq<byte>)
    ensures AllUrlSymbols(ToBase64Url(bytes))
    ensures '+' !in ToBase64Url(bytes) && '/' !in ToBase64Url(bytes) && '=' !in ToBase64Url(bytes)
    ensures |ToBase64Url(bytes)| == 4 * (|bytes| / 3) + TailSymbols(|bytes| % 3)
    ensures |ToBase64Url(bytes)| % 4 != 1
  {
    var r := ToBase64Url(bytes);
    var syms := EncodeSymbols(bytes);
    assert |r| == |syms|;
    DecodeEncodeSymbols(bytes);
    assert |syms| % 4 != 1;
    UrlSymbolsExcludeReserved(r);
  }

  lemma UrlSymbolsExcludeReserved(r: string)
    requires AllUrlSymbols(r)
    ensures '+' !in r && '/' !in r && '=' !in r
  {
    assert forall i :: 0 <= i < |r| ==> r[i] != '+' && r[i] != '/' && r[i] != '=';
  }

  /** Re-padding characters of the standard alphabet before atob decodes them as they are. */
  lemma AtobOfPadded(t: string)
    requires AllStdSymbols(t) && |t| % 4 != 1
    ensures Atob(PadTo4(t)) == Success(BinaryString(DecodeSymbols(t)))
  {
    var r := PadTo4(t);
    var p := r[|t|..];
    assert r == t + p;
    DecodePadded(t, p);
  }

  /** On URL-safe characters, fromBase64Url maps the alphabet back and decodes the characters as they are. */
  lemma FromBase64UrlOfUrlSymbols(s: string)
    requires AllUrlSymbols(s) && |s| % 4 != 1
    ensures AllStdSymbols(FromUrlAlphabet(s))
    ensures FromBase64Url(s) == Success(DecodeSymbols(FromUrlAlphabet(s)))
  {
    UrlAlphabetOfStd(s);
    var t := FromUrlAlphabet(s);
    AtobOfPadded(t);
    CharCodesOfBinaryString(DecodeSymbols(t));
  }

  lemma CharCodesOfBinaryString(b: seq<byte>)
    ensures CharCodes(BinaryString(b)) == b
  {
  }

  /** For every byte sequence, fromBase64Url(toBase64Url(b)) == b, whatever padding the encoding dropped. */
  lemma RoundTrip(bytes: seq<byte>)
    ensures FromBase64Url(ToBase64Url(bytes)) == Success(bytes)
  {
    var syms := EncodeSymbols(bytes);
    ToBase64UrlShape(bytes);
    UrlAlphabetOfStd(syms);
    FromBase64UrlOfUrlSymbols(ToBase64Url(bytes));
    DecodeEncodeSymbols(bytes);
  }

  /** fromBase64Url also accepts the padded standard encoding btoa produces, since neither mapping nor re-padding touches it. */
  lemma AcceptsStandardEncoding(bytes: seq<byte>)
    ensures FromBase64Url(Btoa(BinaryString(bytes)).value) == Success(bytes)
  {
    var s := BinaryString(bytes);
    var e := Btoa(s).value;
    assert e == EncodeSymbols(bytes) + Padding(|s|) by {
      assert Latin1(s) == bytes;
    }
    assert forall i :: 0 <= i < |e| ==> e[i] != '-' && e[i] != '_';
    UrlAlphabetInverse(e);
    assert FromUrlAlphabet(e) == e;
    assert PadTo4(e) == e;
    AtobBtoa(s);
    CharCodesOfBinaryString(bytes);
  }

  /** A string of length 1 mod 4 is rejected, whatever its characters. */
  lemma LengthOneMod4Rejected(s: string)
    requires |s| % 4 == 1
    ensures FromBase64Url(s) == Failure(InvalidCharacter)
  {
    PaddedOneMod4Rejected(s);
  }

  /** Re-padding text of length 1 mod 4 appends three `=`, which atob refuses. */
  lemma PaddedOneMod4Rejected(s: string)
    ensures |s| % 4 == 1 ==> Atob(PadTo4(FromUrlAlphabet(s))) == Failure(InvalidCharacter)
  {
    if |s| % 4 == 1 {
      var t := FromUrlAlphabet(s);
      assert PadTo4(t) == t + "===";
      TriplePaddingRejected(t);
    }
  }

  /** The copy loop reads a binary string back as its bytes. */
  lemma CharCodesOfLatin1(bin: string)
    ensures IsBinaryString(bin) ==> CharCodes(bin) == Latin1(bin)
  {
  }

  /** Three `=` survive padding removal, and `=` is not a symbol. */
  lemma TriplePaddingRejected(t: string)
    ensures Atob(t + "===") == Failure(InvalidCharacter)
  {
    RemoveWhitespaceAppend(t, "===");
    NoWhitespaceUnchanged("===");
    var d := Cleaned(t + "===");
    EqualsSurvivePadding(RemoveWhitespace(t));
    assert !IsStdSymbol(d[|d| - 1]);
    assert !AllStdSymbols(d);
  }

  /** Removing one or two `=` from a string that ends in three leaves one at the end. */
  lemma EqualsSurvivePadding(u: string)
    ensures var d := StripPadding(u + "===");
            |d| > 0 && d[|d| - 1] == '='
  {
    var w := u + "===";
    assert w[|w| - 1] == '=' && w[|w| - 2] == '=' && w[|w| - 3] == '=';
  }

  /** Over the URL-safe alphabet, decoding succeeds exactly when the length is not 1 mod 4, with three bytes per four characters. */
  lemma UrlSymbolsDecode(s: string)
    requires AllUrlSymbols(s)
    ensures FromBase64Url(s).Success? <==> |s| % 4 != 1
    ensures FromBase64Url(s).Success? ==> |FromBase64Url(s).value| == DecodedLength(|s|)
  {
    if |s| % 4 == 1 {
      LengthOneMod4Rejected(s);
    } else {
      FromBase64UrlOfUrlSymbols(s);
    }
  }

  lemma DecodeTwoSymbols(c0: char, c1: char, b: byte)
    requires IsStdSymbol(c0) && IsStdSymbol(c1)
    requires b == SymbolValue(c0) * 4 + SymbolValue(c1) / 16
    ensures DecodeSymbols([c0, c1]) == [b]
  {
    assert Values([c0, c1]) == [SymbolValue(c0), SymbolValue(c1)];
  }

  /** Two letters or digits decode to the one byte their first 8 bits spell. */
  lemma FromBase64UrlTwo(c0: char, c1: char, b: byte)
    requires IsStdSymbol(c0) && IsStdSymbol(c1) && c0 != '+' && c0 != '/' && c1 != '+' && c1 != '/'
    requires b == SymbolValue(c0) * 4 + SymbolValue(c1) / 16
    ensures FromBase64Url([c0, c1]) == Success([b])
  {
    var s := [c0, c1];
    assert FromUrlAlphabet(s) == s;
    FromBase64UrlOfUrlSymbols(s);
    DecodeTwoSymbols(c0, c1, b);
  }

  /** A vector over the URL-safe alphabet: values 62 and 63 are written `-` and `_`, and the result reads back. */
  lemma UrlVector()
    ensures ToBase64Url([251, 255]) == "-_8"
    ensures FromBase64Url("-_8") == Success([251, 255])
  {
    EncodeHighPair();
    assert ToUrlAlphabet("+/8") == "-_8";
    RoundTrip([251, 255]);
  }

  /**
   * On a length that is a multiple of four no `=` is added, so fromBase64Url
   * decodes the mapped text exactly as atob would, whitespace included.
   */
  lemma AlignedLengthNotPadded(s: string)
    requires |s| % 4 == 0
    ensures FromBase64Url(s).Success? <==> ForgivingDecode(FromUrlAlphabet(s)).Success?
    ensures FromBase64Url(s).Success? ==> FromBase64Url(s).value == ForgivingDecode(FromUrlAlphabet(s)).value
  {
    assert PadTo4(FromUrlAlphabet(s)) == FromUrlAlphabet(s);
  }

  /**
   * Whitespace is counted by the re-padding loop: atob skips a space between
   * two whitespace-free pieces, but when the pieces fill whole groups the
   * space makes the length 1 mod 4, so fromBase64Url appends three `=` and fails.
   */
  lemma WhitespaceCountsTowardPadding(a: string, b: string)
    requires forall i :: 0 <= i < |a| ==> !IsAsciiWhitespace(a[i])
    requires forall i :: 0 <= i < |b| ==> !IsAsciiWhitespace(b[i])
    requires (|a| + |b|) % 4 == 0
    ensures Atob(a + " " + b) == Atob(a + b)
    ensures FromBase64Url(a + " " + b) == Failure(InvalidCharacter)
  {
    var spaced := a + " " + b;
    assert |spaced| % 4 == 1;
    assert Atob(spaced) == Atob(a + b) by {
      SpaceSkipped(a, b);
    }
    assert FromBase64Url(spaced) == Failure(InvalidCharacter) by {
      LengthOneMod4Rejected(spaced);
    }
  }

  lemma SpaceSkipped(a: string, b: string)
    ensures Atob(a + " " + b) == Atob(a + b)
  {
    assert RemoveWhitespace(a + " " + b) == RemoveWhitespace(a + b) by {
      RemoveWhitespaceAppend(a + " ", b);
      RemoveWhitespaceAppend(a, " ");
      RemoveWhitespaceAppend(a, b);
      assert RemoveWhitespace(" ") == [];
    }
  }

  /** "Zm9vZm9v" decodes, and the same text with a space in the middle does not. */
  lemma SpacedVector()
    ensures FromBase64Url("Zm9vZm9v").Success?
    ensures FromBase64Url("Zm9v Zm9v") == Failure(InvalidCharacter)
  {
    assert FromBase64Url("Zm9vZm9v").Success? by {
      DoubledDecodes("Zm9v");
    }
    assert FromBase64Url("Zm9v Zm9v") == Failure(InvalidCharacter) by {
      SpacedFails("Zm9v");
    }
  }

  lemma DoubledDecodes(foo: string)
    requires foo == "Zm9v"
    ensures FromBase64Url("Zm9vZm9v").Success?
  {
    assert AllUrlSymbols(foo);
    assert foo + foo == "Zm9vZm9v";
    WholeGroupsDecode(foo, foo);
  }

  lemma WholeGroupsDecode(t: string, u: string)
    requires AllUrlSymbols(t) && AllUrlSymbols(u) && |t| % 4 == 0 && |u| % 4 == 0
    ensures FromBase64Url(t + u).Success?
  {
    assert AllUrlSymbols(t + u);
    UrlSymbolsDecode(t + u);
  }

  lemma SpacedFails(foo: string)
    requires foo == "Zm9v"
    ensures FromBase64Url("Zm9v Zm9v") == Failure(InvalidCharacter)
  {
    assert foo + " " + foo == "Zm9v Zm9v";
    WhitespaceCountsTowardPadding(foo, foo);
  }

  /** atob ignores the bits a final partial group leaves over, so two different strings decode to the same byte. */
  lemma DecodeIgnoresTrailingBits()
    ensures FromBase64Url("AA") == Success([0])
    ensures FromBase64Url("AB") == Success([0])
  {
    FromBase64UrlTwo('A', 'A', 0);
    FromBase64UrlTwo('A', 'B', 0);
  }
}
