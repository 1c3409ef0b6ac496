/**
 * The URL-safe base64 codec of `src/utils/base64.ts`: standard base64
 * (section 4 of RFC 4648), as the browser's `btoa` and `atob` compute it,
 * with `+` and `/` replaced by `-` and `_` and the `=` padding dropped
 * (section 5 of RFC 4648).  `atob` follows the forgiving-base64 decode of
 * the WHATWG Infra standard and fails (throws) on malformed input.
 */
module Base64Url {
  import opened Wrappers
  import Text

  type byte = b: int | 0 <= b < 256

  /** A six-bit group: the value of one base64 digit. */
  type sextet = v: int | 0 <= v < 64

  // ---- Binary strings ------------------------------------------------------

  /** `String.fromCharCode(b)` for each byte: one character per byte. */
  function Binary(bs: seq<byte>): (s: string)
    ensures |s| == |bs| && forall i :: 0 <= i < |bs| ==> s[i] as int == bs[i]
  {
    seq(|bs|, i requires 0 <= i < |bs| => bs[i] as char)
  }

  predicate IsBinary(s: string) {
    forall i :: 0 <= i < |s| ==> s[i] as int < 256
  }

  /** `s.charCodeAt(i)` for each character of a binary string. */
  function CharCodes(s: string): (bs: seq<byte>)
    requires IsBinary(s)
    ensures |bs| == |s| && forall i :: 0 <= i < |s| ==> bs[i] == s[i] as int
  {
    seq(|s|, i requires 0 <= i < |s| => s[i] as int)
  }

  lemma CharCodesOfBinary(bs: seq<byte>)
    ensures IsBinary(Binary(bs)) && CharCodes(Binary(bs)) == bs
  {
  }

  // ---- Bytes and six-bit groups --------------------------------------------

  // The four groups of three bytes b0 b1 b2, high bits first.
  function Cut0(b0: byte): sextet { b0 / 4 }
  function Cut1(b0: byte, b1: byte): sextet { (b0 % 4) * 16 + b1 / 16 }
  function Cut2(b1: byte, b2: byte): sextet { (b1 % 16) * 4 + b2 / 64 }
  function Cut3(b2: byte): sextet { b2 % 64 }

  // The three bytes of four groups v0 v1 v2 v3.
  function Glue0(v0: sextet, v1: sextet): byte { v0 * 4 + v1 / 16 }
  function Glue1(v1: sextet, v2: sextet): byte { (v1 % 16) * 16 + v2 / 4 }
  function Glue2(v2: sextet, v3: sextet): byte { (v2 % 4) * 64 + v3 }

  lemma GlueCut0(b0: byte, b1: byte)
    ensures Glue0(Cut0(b0), Cut1(b0, b1)) == b0
  {
    assert Cut1(b0, b1) / 16 == b0 % 4;
  }

  lemma GlueCut1(b0: byte, b1: byte, b2: byte)
    ensures Glue1(Cut1(b0, b1), Cut2(b1, b2)) == b1
  {
    assert Cut1(b0, b1) % 16 == b1 / 16;
    assert Cut2(b1, b2) / 4 == b1 % 16;
  }

  lemma GlueCut2(b1: byte, b2: byte)
    ensures Glue2(Cut2(b1, b2), Cut3(b2)) == b2
  {
    assert Cut2(b1, b2) % 4 == b2 / 64;
  }

  /** Three bytes, 24 bits, cut into four six-bit groups; a final one or two
      bytes give two or three groups, the missing low bits being zero. */
  function Sextets(bs: seq<byte>): (vs: seq<sextet>)
    ensures |vs| == 4 * (|bs| / 3) + (if |bs| % 3 == 0 then 0 else |bs| % 3 + 1)
    decreases |bs|
  {
    if |bs| == 0 then []
    else if |bs| == 1 then [Cut0(bs[0]), Cut1(bs[0], 0)]
    else if |bs| == 2 then [Cut0(bs[0]), Cut1(bs[0], bs[1]), Cut2(bs[1], 0)]
    else [Cut0(bs[0]), Cut1(bs[0], bs[1]), Cut2(bs[1], bs[2]), Cut3(bs[2])] + Sextets(bs[3..])
  }

  /** The inverse: four groups give three bytes, a final two or three groups
      give one or two bytes, and the bits left over are dropped. */
  function Octets(vs: seq<sextet>): seq<byte>
    requires |vs| % 4 != 1
    decreases |vs|
  {
    if |vs| == 0 then []
    else if |vs| == 2 then [Glue0(vs[0], vs[1])]
    else if |vs| == 3 then [Glue0(vs[0], vs[1]), Glue1(vs[1], vs[2])]
    else [Glue0(vs[0], vs[1]), Glue1(vs[1], vs[2]), Glue2(vs[2], vs[3])] + Octets(vs[4..])
  }

  lemma OctetsChunk(b0: byte, b1: byte, b2: byte, rest: seq<sextet>)
    requires |rest| % 4 != 1
    ensures Octets([Cut0(b0), Cut1(b0, b1), Cut2(b1, b2), Cut3(b2)] + rest) == [b0, b1, b2] + Octets(rest)
  {
    var vs := [Cut0(b0), Cut1(b0, b1), Cut2(b1, b2), Cut3(b2)] + rest;
    assert vs[4..] == rest;
    GlueCut0(b0, b1);
    GlueCut1(b0, b1, b2);
    GlueCut2(b1, b2);
  }

  lemma OctetsTail(bs: seq<byte>)
    requires |bs| == 1 || |bs| == 2
    ensures Octets(Sextets(bs)) == bs
  {
    if |bs| == 2 {
      GlueCut0(bs[0], bs[1]);
      GlueCut1(bs[0], bs[1], 0);
    } else {
      GlueCut0(bs[0], 0);
    }
  }

  lemma SextetsLength(bs: seq<byte>)
    ensures |Sextets(bs)| % 4 != 1
  {
  }

  /** Decoding the groups of a byte sequence gives the sequence back. */
  lemma {:induction false} OctetsOfSextets(bs: seq<byte>)
    ensures |Sextets(bs)| % 4 != 1 && Octets(Sextets(bs)) == bs
    decreases |bs|
  {
    SextetsLength(bs);
    if |bs| >= 3 {
      var rest := bs[3..];
      SextetsLength(rest);
      OctetsOfSextets(rest);
      OctetsChunk(bs[0], bs[1], bs[2], Sextets(rest));
      assert bs == [bs[0], bs[1], bs[2]] + rest;
    } else if |bs| > 0 {
      OctetsTail(bs);
    }
  }

  // ---- The standard alphabet -----------------------------------------------

  function Digit(v: sextet): char {
    if v < 26 then ('A' as int + v) as char
    else if v < 52 then ('a' as int + v - 26) as char
    else if v < 62 then ('0' as int + v - 52) as char
    else if v == 62 then '+'
    else '/'
  }

  predicate IsDigit(c: char) {
    'A' <= c <= 'Z' || 'a' <= c <= 'z' || '0' <= c <= '9' || c == '+' || c == '/'
  }

  function Value(c: char): (v: sextet)
    requires IsDigit(c)
  {
    if 'A' <= c <= 'Z' then c as int - 'A' as int
    else if 'a' <= c <= 'z' then c as int - 'a' as int + 26
    else if '0' <= c <= '9' then c as int - '0' as int + 52
    else if c == '+' then 62
    else 63
  }

  lemma DigitValue(v: sextet)
    ensures IsDigit(Digit(v)) && Value(Digit(v)) == v
  {
  }

  predicate AllDigits(s: string) {
    forall i :: 0 <= i < |s| ==> IsDigit(s[i])
  }

  function Digits(vs: seq<sextet>): (s: string)
    ensures |s| == |vs|
  {
    seq(|vs|, i requires 0 <= i < |vs| => Digit(vs[i]))
  }

  function Values(s: string): (vs: seq<sextet>)
    requires AllDigits(s)
    ensures |vs| == |s|
  {
    seq(|s|, i requires 0 <= i < |s| => Value(s[i]))
  }

  lemma ValuesOfDigits(vs: seq<sextet>)
    ensures AllDigits(Digits(vs)) && Values(Digits(vs)) == vs
  {
    forall i | 0 <= i < |vs| {
      DigitValue(vs[i]);
    }
  }

  // ---- `btoa` and `atob` -----------------------------------------------------

  /** The `=` padding that fills the last group to four characters. */
  function Padding(n: nat): string {
    if n % 3 == 1 then "==" else if n % 3 == 2 then "=" else ""
  }

  /** `btoa` on a binary string. */
  function Btoa(binary: string): string
    requires IsBinary(binary)
  {
    Digits(Sextets(CharCodes(binary))) + Padding(|binary|)
  }

  /** ASCII whitespace, which `atob` skips. */
  predicate IsAsciiWhitespace(c: char) {
    c == '\t' || c == '\n' || c == '\U{000C}' || c == '\r' || c == ' '
  }

  function RemoveWhitespace(s: string): (r: string)
    decreases |s|
  {
    if s == [] then [] else (if IsAsciiWhitespace(s[0]) then [] else [s[0]]) + RemoveWhitespace(s[1..])
  }

  /** `atob`: whitespace is skipped, then one or two `=` are stripped from a
      length that is a multiple of four; `None` where it throws, that is
      on a remainder of one mod four or a character outside the alphabet. */
  function Atob(data: string): (r: Option<string>)
    ensures r.Some? ==> IsBinary(r.value)
  {
    var e := StripPadding(RemoveWhitespace(data));
    if |e| % 4 == 1 || !AllDigits(e) then None else Some(Binary(Octets(Values(e))))
  }

  /** One or two trailing `=` removed, when the length is a multiple of four. */
  function StripPadding(d: string): string {
    var n := |d|;
    if n % 4 == 0 && n >= 2 && d[n - 2] == '=' && d[n - 1] == '=' then d[..n - 2]
    else if n % 4 == 0 && n >= 1 && d[n - 1] == '=' then d[..n - 1]
    else d
  }

  // ---- String replacement ------------------------------------------------------

  /** `s.replace(/a/g, b)` for single characters `a` and `b`. */
  function Swap(s: string, a: char, b: char): (r: string)
    ensures |r| == |s| && forall i :: 0 <= i < |s| ==> r[i] == if s[i] == a then b else s[i]
  {
    Text.ReplaceAllChar(s, a, b);
    Text.ReplaceAll(s, a, [b])
  }

  /** `c.repeat(k)`. */
  function Repeat(c: char, k: nat): (r: string)
    ensures |r| == k && forall i :: 0 <= i < k ==> r[i] == c
  {
    seq(k, i => c)
  }

  // ---- The URL-safe codec ------------------------------------------------------

  /** The number of `=` that `fromBase64Url` appends. */
  function PadLen(n: nat): (p: nat)
    ensures p <= 3 && (n + p) % 4 == 0
  {
    (4 - n % 4) % 4
  }

  /** The replace chain of `toBase64Url`. */
  function ToUrl(b64: string): string {
    Text.ReplaceAll(Swap(Swap(b64, '+', '-'), '/', '_'), '=', "")
  }

  /** The replace chain of `fromBase64Url`. */
  function FromUrl(s: string): (b64: string)
    ensures |b64| == |s|
  {
    Swap(Swap(s, '-', '+'), '_', '/')
  }

  /** What `toBase64Url` returns for a byte sequence. */
  function EncodeUrl(bs: seq<byte>): string {
    ToUrl(Btoa(Binary(bs)))
  }

  /** What `fromBase64Url` returns: `None` where `atob` throws. */
  function DecodeUrl(s: string): Option<seq<byte>> {
    var b64 := FromUrl(s);
    var padded := b64 + Repeat('=', PadLen(|b64|));
    match Atob(padded)
    case None => None
    case Some(binary) => Some(CharCodes(binary))
  }

  /** `toBase64Url`: builds the binary string byte by byte. */
  method ToBase64Url(buffer: array<byte>) returns (s: string)
    ensures s == EncodeUrl(buffer[..])
  {
    var binary := "";
    var i := 0;
    while i < buffer.Length
      invariant 0 <= i <= buffer.Length
      invariant binary == Binary(buffer[..i])
    {
      binary := binary + [buffer[i] as char];
      i := i + 1;
    }
    assert buffer[..i] == buffer[..];
    s := ToUrl(Btoa(binary));
  }

  /** `fromBase64Url`: fills a fresh buffer from the character codes of what
      `atob` decodes, or fails where `atob` throws. */
  method FromBase64Url(base64url: string) returns (r: Option<array<byte>>)
    ensures r.None? <==> DecodeUrl(base64url).None?
    ensures r.Some? ==> fresh(r.value) && r.value[..] == DecodeUrl(base64url).value
  {
    var b64 := FromUrl(base64url);
    var padLen := (4 - |b64| % 4) % 4;
    var padded := b64 + Repeat('=', padLen);
    assert padLen == PadLen(|b64|);
    var decoded := Atob(padded);
    assert DecodeUrl(base64url) == if decoded.None? then None else Some(CharCodes(decoded.value));
    if decoded.None? {
      return None;
    }
    var buffer := CodesOf(decoded.value);
    r := Some(buffer);
  }

  /** `Uint8Array.from(binary, c => c.charCodeAt(0))` */
  method CodesOf(binary: string) returns (buffer: array<byte>)
    requires IsBinary(binary)
    ensures fresh(buffer) && buffer[..] == CharCodes(binary)
  {
    buffer := new byte[|binary|];
    var i := 0;
    while i < |binary|
      invariant 0 <= i <= |binary|
      invariant forall j :: 0 <= j < i ==> buffer[j] == binary[j] as int
    {
      buffer[i] := binary[i] as int;
      i := i + 1;
    }
    assert buffer[..] == CharCodes(binary);
  }

  // ---- Properties ------------------------------------------------------------

  /** The URL-safe alphabet: `-` and `_` in place of `+` and `/`. */
  function UrlDigit(v: sextet): char {
    if v == 62 then '-' else if v == 63 then '_' else Digit(v)
  }

  predicate IsUrlDigit(c: char) {
    'A' <= c <= 'Z' || 'a' <= c <= 'z' || '0' <= c <= '9' || c == '-' || c == '_'
  }

  function UrlDigits(vs: seq<sextet>): (s: string)
    ensures |s| == |vs|
  {
    seq(|vs|, i requires 0 <= i < |vs| => UrlDigit(vs[i]))
  }

  lemma {:induction false} RemoveWhitespaceAbsent(s: string)
    requires forall i :: 0 <= i < |s| ==> !IsAsciiWhitespace(s[i])
    ensures RemoveWhitespace(s) == s
    decreases |s|
  {
    if s != [] {
      RemoveWhitespaceAbsent(s[1..]);
      assert s == [s[0]] + s[1..];
    }
  }

  lemma DigitToUrl(v: sextet)
    ensures var c := Digit(v);
            var c' := if c == '+' then '-' else c;
            (if c' == '/' then '_' else c') == UrlDigit(v)
    ensures IsUrlDigit(UrlDigit(v))
  {
  }

  lemma UrlToDigit(v: sextet)
    ensures var c := UrlDigit(v);
            var c' := if c == '-' then '+' else c;
            (if c' == '_' then '/' else c') == Digit(v)
  {
  }

  lemma SwapDigits(vs: seq<sextet>, pad: string)
    requires forall i :: 0 <= i < |pad| ==> pad[i] == '='
    ensures Swap(Swap(Digits(vs) + pad, '+', '-'), '/', '_') == UrlDigits(vs) + pad
  {
    var sw := Swap(Swap(Digits(vs) + pad, '+', '-'), '/', '_');
    forall i | 0 <= i < |sw|
      ensures sw[i] == (UrlDigits(vs) + pad)[i]
    {
      if i < |vs| {
        DigitToUrl(vs[i]);
      }
    }
  }

  /** `toBase64Url` writes the six-bit groups of the bytes in the URL-safe
      alphabet, with no padding. */
  lemma EncodeUrlDigits(bs: seq<byte>)
    ensures EncodeUrl(bs) == UrlDigits(Sextets(bs))
  {
    var vs := Sextets(bs);
    var pad := Padding(|bs|);
    CharCodesOfBinary(bs);
    assert Btoa(Binary(bs)) == Digits(vs) + pad;
    SwapDigits(vs, pad);
    Text.ReplaceAllAppend(UrlDigits(vs), pad, '=', "");
    forall i | 0 <= i < |vs| {
      DigitToUrl(vs[i]);
    }
    Text.ReplaceAllAbsent(UrlDigits(vs), '=', "");
    Text.ReplaceAllOnly(pad, '=');
  }

  /** The output uses only `A-Z a-z 0-9 - _`, so in particular no `+`, `/`
      or `=`, and its length is four characters per three bytes rounded up. */
  lemma EncodeUrlAlphabet(bs: seq<byte>)
    ensures forall i :: 0 <= i < |EncodeUrl(bs)| ==> IsUrlDigit(EncodeUrl(bs)[i])
    ensures |EncodeUrl(bs)| == (4 * |bs| + 2) / 3
  {
    EncodeUrlDigits(bs);
  }

  lemma StripPadded(d: string)
    requires AllDigits(d) && |d| % 4 != 1
    ensures StripPadding(d + Repeat('=', PadLen(|d|))) == d
  {
    var n := |d|;
    if n % 4 == 0 {
      StripUnpadded(d);
    } else if n % 4 == 2 {
      StripTwo(d);
    } else {
      StripOne(d);
    }
  }

  lemma StripUnpadded(d: string)
    requires AllDigits(d) && |d| % 4 == 0
    ensures StripPadding(d + Repeat('=', PadLen(|d|))) == d
  {
    assert d + Repeat('=', PadLen(|d|)) == d;
    assert |d| >= 1 ==> d[|d| - 1] != '=';
  }

  lemma StripTwo(d: string)
    requires |d| % 4 == 2
    ensures StripPadding(d + Repeat('=', PadLen(|d|))) == d
  {
    var padded := d + Repeat('=', PadLen(|d|));
    assert padded == d + "==";
    assert padded[..|d|] == d;
  }

  lemma StripOne(d: string)
    requires AllDigits(d) && |d| % 4 == 3
    ensures StripPadding(d + Repeat('=', PadLen(|d|))) == d
  {
    var padded := d + Repeat('=', PadLen(|d|));
    assert padded == d + "=";
    assert padded[|d| - 1] == d[|d| - 1] != '=';
    assert padded[..|d|] == d;
  }

  lemma FromUrlDigits(vs: seq<sextet>)
    ensures FromUrl(UrlDigits(vs)) == Digits(vs)
  {
    forall i | 0 <= i < |vs|
      ensures FromUrl(UrlDigits(vs))[i] == Digits(vs)[i]
    {
      UrlToDigit(vs[i]);
    }
  }

  lemma DigitsNoWhitespace(vs: seq<sextet>, k: nat)
    ensures RemoveWhitespace(Digits(vs) + Repeat('=', k)) == Digits(vs) + Repeat('=', k)
  {
    var e := Digits(vs) + Repeat('=', k);
    forall i | 0 <= i < |e|
      ensures !IsAsciiWhitespace(e[i])
    {
      if i < |vs| {
        DigitValue(vs[i]);
      }
    }
    RemoveWhitespaceAbsent(e);
  }

  /** `fromBase64Url` undoes the URL alphabet and the padding and decodes
      the six-bit groups. */
  lemma DecodeUrlDigits(vs: seq<sextet>)
    requires |vs| % 4 != 1
    ensures DecodeUrl(UrlDigits(vs)) == Some(Octets(vs))
  {
    var d := Digits(vs);
    FromUrlDigits(vs);
    ValuesOfDigits(vs);
    DigitsNoWhitespace(vs, PadLen(|d|));
    StripPadded(d);
    CharCodesOfBinary(Octets(vs));
  }

  /** The round trip: `fromBase64Url(toBase64Url(b))` is `b` for every byte
      sequence `b`. */
  lemma RoundTrip(bs: seq<byte>)
    ensures DecodeUrl(EncodeUrl(bs)) == Some(bs)
  {
    EncodeUrlDigits(bs);
    OctetsOfSextets(bs);
    DecodeUrlDigits(Sextets(bs));
  }

  /** On a string of URL-safe digits, `fromBase64Url` fails exactly when the
      length leaves a remainder of one mod four. */
  lemma DecodeUrlDefined(s: string)
    requires forall i :: 0 <= i < |s| ==> IsUrlDigit(s[i])
    ensures DecodeUrl(s).Some? <==> |s| % 4 != 1
  {
    var b64 := FromUrl(s);
    FromUrlAllDigits(s);
    var padded := b64 + Repeat('=', PadLen(|b64|));
    RemoveWhitespaceAbsent(padded);
    if |s| % 4 != 1 {
      StripPadded(b64);
    } else {
      StripTriple(b64);
    }
  }

  lemma FromUrlAllDigits(s: string)
    requires forall i :: 0 <= i < |s| ==> IsUrlDigit(s[i])
    ensures AllDigits(FromUrl(s))
    ensures forall i :: 0 <= i < |s| + PadLen(|s|) ==> !IsAsciiWhitespace((FromUrl(s) + Repeat('=', PadLen(|s|)))[i])
  {
  }

  /** Three `=` after a length of one mod four: only two are stripped. */
  lemma StripTriple(d: string)
    requires |d| % 4 == 1
    ensures var e := StripPadding(d + Repeat('=', PadLen(|d|)));
            |e| > 0 && e[|e| - 1] == '='
  {
    var padded := d + Repeat('=', PadLen(|d|));
    assert padded[|padded| - 2..] == "==";
  }

  lemma {:induction false} RemoveWhitespaceKeeps(s: string, c: char)
    ensures c in s && !IsAsciiWhitespace(c) ==> c in RemoveWhitespace(s)
    decreases |s|
  {
    if s != [] {
      RemoveWhitespaceKeeps(s[1..], c);
      assert c in s ==> c == s[0] || c in s[1..];
    }
  }

  lemma StripPaddingKeeps(d: string, c: char)
    ensures c in d && c != '=' ==> c in StripPadding(d)
  {
    var e := StripPadding(d);
    assert d == e + d[|e|..];
    assert forall j :: |e| <= j < |d| ==> d[j] == '=';
  }

  /** A character that is neither in either alphabet, nor `=`, nor ASCII
      whitespace makes `fromBase64Url` fail. */
  lemma DecodeUrlForeign(s: string, i: nat)
    requires i < |s|
    requires !IsUrlDigit(s[i]) && !IsDigit(s[i]) && s[i] != '=' && !IsAsciiWhitespace(s[i])
    ensures DecodeUrl(s) == None
  {
    var c := s[i];
    var b64 := FromUrl(s);
    assert b64[i] == c;
    var padded := b64 + Repeat('=', PadLen(|b64|));
    assert padded[i] == c;
    RemoveWhitespaceKeeps(padded, c);
    StripPaddingKeeps(RemoveWhitespace(padded), c);
  }
}
