/**
 * String primitives of JavaScript's `String.prototype` that the modelled code
 * relies on, over `seq<char>`.
 */
module Text {

  /** The characters JavaScript's `trim()` removes and `\s` matches:
      WhiteSpace and LineTerminator of ECMA-262, sections 12.2 and 12.3. */
  predicate IsSpace(c: char) {
    var n := c as int;
    (9 <= n <= 13) || n == 0x20 || n == 0xA0 || n == 0x1680 || (0x2000 <= n <= 0x200A)
    || n == 0x2028 || n == 0x2029 || n == 0x202F || n == 0x205F || n == 0x3000 || n == 0xFEFF
  }

  /** The characters a regular-expression `.` does not match. */
  predicate IsLineTerminator(c: char) {
    c == '\n' || c == '\r' || c == '\U{2028}' || c == '\U{2029}'
  }

  lemma LineTerminatorIsSpace(c: char)
    ensures IsLineTerminator(c) ==> IsSpace(c)
  {
  }

  /** `\d` */
  predicate IsDigit(c: char) {
    '0' <= c <= '9'
  }

  /** `[a-zA-Z0-9]` */
  predicate IsAsciiAlnum(c: char) {
    ('a' <= c <= 'z') || ('A' <= c <= 'Z') || IsDigit(c)
  }

  /** `toLowerCase()` restricted to the ASCII letters. */
  function LowerChar(c: char): (r: char)
    ensures 'A' <= c <= 'Z' ==> r as int == c as int + 32
    ensures !('A' <= c <= 'Z') ==> r == c
  {
    if 'A' <= c <= 'Z' then (c as int + 32) as char else c
  }

  function Lower(s: string): (r: string)
  {
    seq(|s|, i requires 0 <= i < |s| => LowerChar(s[i]))
  }

  predicate StartsWith(s: string, prefix: string) {
    |prefix| <= |s| && s[..|prefix|] == prefix
  }

  predicate EndsWith(s: string, suffix: string) {
    |suffix| <= |s| && s[|s| - |suffix|..] == suffix
  }

  /** `s.includes(t)` */
  predicate Contains(s: string, t: string) {
    exists i :: 0 <= i <= |s| - |t| && OccursAt(s, t, i)
  }

  predicate OccursAt(s: string, t: string, i: int) {
    0 <= i <= |s| - |t| && s[i..i + |t|] == t
  }

  /** The length JavaScript reports: UTF-16 code units, two for a character
      outside the Basic Multilingual Plane. */
  function Utf16Length(s: string): (n: nat)
    ensures |s| <= n <= 2 * |s|
  {
    if s == [] then 0
    else (if s[0] as int > 0xFFFF then 2 else 1) + Utf16Length(s[1..])
  }

  /** The index of the first non-white-space character at or after `i`,
      or `|s|`. */
  function SkipSpace(s: string, i: nat): (j: nat)
    requires i <= |s|
    ensures i <= j <= |s|
    decreases |s| - i
  {
    if i < |s| && IsSpace(s[i]) then SkipSpace(s, i + 1) else i
  }

  /** One past the last non-white-space character before `j`, or 0. */
  function SkipSpaceBack(s: string, j: nat): (i: nat)
    requires j <= |s|
    ensures i <= j
  {
    if j > 0 && IsSpace(s[j - 1]) then SkipSpaceBack(s, j - 1) else j
  }

  lemma {:induction false} SkipSpaceSpec(s: string, i: nat)
    requires i <= |s|
    ensures forall k :: i <= k < SkipSpace(s, i) ==> IsSpace(s[k])
    ensures SkipSpace(s, i) < |s| ==> !IsSpace(s[SkipSpace(s, i)])
    decreases |s| - i
  {
    if i < |s| && IsSpace(s[i]) { SkipSpaceSpec(s, i + 1); }
  }

  lemma {:induction false} SkipSpaceBackSpec(s: string, j: nat)
    requires j <= |s|
    ensures forall k :: SkipSpaceBack(s, j) <= k < j ==> IsSpace(s[k])
    ensures SkipSpaceBack(s, j) > 0 ==> !IsSpace(s[SkipSpaceBack(s, j) - 1])
  {
    if j > 0 && IsSpace(s[j - 1]) { SkipSpaceBackSpec(s, j - 1); }
  }

  /** `trimStart()` */
  function TrimStart(s: string): (r: string)
  {
    s[SkipSpace(s, 0)..]
  }

  /** `trimEnd()` */
  function TrimEnd(s: string): (r: string)
  {
    s[..SkipSpaceBack(s, |s|)]
  }

  /** `trim()` */
  function Trim(s: string): (r: string)
    ensures |r| <= |s|
  {
    TrimEnd(TrimStart(s))
  }

  lemma TrimStartSpec(s: string)
    ensures TrimStart(s) == s[|s| - |TrimStart(s)|..]
    ensures TrimStart(s) != [] ==> !IsSpace(TrimStart(s)[0])
    ensures forall i :: 0 <= i < |s| - |TrimStart(s)| ==> IsSpace(s[i])
  {
    SkipSpaceSpec(s, 0);
  }

  lemma TrimEndSpec(s: string)
    ensures TrimEnd(s) == s[..|TrimEnd(s)|]
    ensures TrimEnd(s) != [] ==> !IsSpace(TrimEnd(s)[|TrimEnd(s)| - 1])
    ensures forall i :: |TrimEnd(s)| <= i < |s| ==> IsSpace(s[i])
  {
    SkipSpaceBackSpec(s, |s|);
  }

  /** Where the trimmed string starts in the input. */
  function TrimOffset(s: string): nat
  {
    |s| - |TrimStart(s)|
  }

  /** What `trim()` promises: the result is a slice of the input with only
      white space cut off on either side, and it neither starts nor ends with
      white space. */
  lemma TrimSpec(s: string)
    ensures TrimOffset(s) + |Trim(s)| <= |s|
    ensures Trim(s) == s[TrimOffset(s)..TrimOffset(s) + |Trim(s)|]
    ensures forall i :: 0 <= i < TrimOffset(s) ==> IsSpace(s[i])
    ensures forall i :: TrimOffset(s) + |Trim(s)| <= i < |s| ==> IsSpace(s[i])
    ensures Trim(s) != [] ==> !IsSpace(Trim(s)[0]) && !IsSpace(Trim(s)[|Trim(s)| - 1])
  {
    var t := TrimStart(s);
    TrimStartSpec(s);
    TrimEndSpec(t);
    var k := |s| - |t|;
    assert Trim(s) == s[k..k + |Trim(s)|];
    forall i | k + |Trim(s)| <= i < |s| ensures IsSpace(s[i]) {
      assert s[i] == t[i - k];
    }
  }

  /** A string that already has no surrounding white space is its own trim. */
  lemma TrimOfTrimmed(s: string)
    requires s == [] || (!IsSpace(s[0]) && !IsSpace(s[|s| - 1]))
    ensures Trim(s) == s
  {
  }

  /** `s.split(sep)` for a one-character separator: the pieces between
      separators, so a string with n separators gives n + 1 pieces. */
  function Split(s: string, sep: char): (r: seq<string>)
    ensures |r| >= 1
    ensures forall i :: 0 <= i < |r| ==> sep !in r[i]
    decreases |s|
  {
    if sep !in s then [s]
    else
      var i := IndexOf(s, sep);
      [s[..i]] + Split(s[i + 1..], sep)
  }

  /** The position of the first occurrence of `c` in `s`. */
  function IndexOf(s: string, c: char): (i: nat)
    requires c in s
    ensures i < |s| && s[i] == c && c !in s[..i]
  {
    if s[0] == c then 0 else 1 + IndexOf(s[1..], c)
  }

  /** `parts.join(sep)` */
  function Join(parts: seq<string>, sep: string): (r: string)
  {
    if parts == [] then []
    else if |parts| == 1 then parts[0]
    else parts[0] + sep + Join(parts[1..], sep)
  }

  /** Joining the split pieces with the separator gives back the input. */
  lemma {:induction false} JoinSplit(s: string, sep: char)
    ensures Join(Split(s, sep), [sep]) == s
    decreases |s|
  {
    if sep in s {
      var i := IndexOf(s, sep);
      var rest := Split(s[i + 1..], sep);
      JoinSplit(s[i + 1..], sep);
      JoinCons(s[..i], rest, [sep]);
      Rejoin(s, i);
    }
  }

  lemma JoinCons(a: string, rest: seq<string>, sep: string)
    requires rest != []
    ensures Join([a] + rest, sep) == a + sep + Join(rest, sep)
  {
    assert ([a] + rest)[1..] == rest;
  }

  lemma Rejoin(s: string, i: nat)
    requires i < |s|
    ensures s[..i] + [s[i]] + s[i + 1..] == s
  {
  }

  /** `s.replace(from, to)` with a string pattern: only the first occurrence. */
  function ReplaceFirst(s: string, from: string, to: string): (r: string)
    requires from != []
    decreases |s|
  {
    if |s| < |from| then s
    else if s[..|from|] == from then to + s[|from|..]
    else [s[0]] + ReplaceFirst(s[1..], from, to)
  }

  /** `s.replace(/c/g, to)` for a single character `c`. */
  function ReplaceAll(s: string, c: char, to: string): (r: string)
    ensures c !in to ==> c !in r
    ensures forall d :: d in r ==> d in s || d in to
  {
    if s == [] then []
    else (if s[0] == c then to else [s[0]]) + ReplaceAll(s[1..], c, to)
  }

  lemma {:induction false} ReplaceAllAppend(s: string, t: string, c: char, to: string)
    ensures ReplaceAll(s + t, c, to) == ReplaceAll(s, c, to) + ReplaceAll(t, c, to)
    decreases |s|
  {
    if s == [] {
      assert s + t == t;
    } else {
      assert (s + t)[1..] == s[1..] + t;
      ReplaceAllAppend(s[1..], t, c, to);
    }
  }

  /** Replacing a character by a character keeps the length and works
      position by position. */
  lemma {:induction false} ReplaceAllChar(s: string, c: char, d: char)
    ensures |ReplaceAll(s, c, [d])| == |s|
    ensures forall i :: 0 <= i < |s| ==> ReplaceAll(s, c, [d])[i] == if s[i] == c then d else s[i]
    decreases |s|
  {
    if s != [] {
      ReplaceAllChar(s[1..], c, d);
    }
  }

  lemma {:induction false} ReplaceAllAbsent(s: string, c: char, to: string)
    requires c !in s
    ensures ReplaceAll(s, c, to) == s
    decreases |s|
  {
    if s != [] {
      ReplaceAllAbsent(s[1..], c, to);
    }
  }

  /** Deleting `c` from a string made only of `c` leaves nothing. */
  lemma {:induction false} ReplaceAllOnly(s: string, c: char)
    requires forall i :: 0 <= i < |s| ==> s[i] == c
    ensures ReplaceAll(s, c, "") == ""
    decreases |s|
  {
    if s != [] {
      ReplaceAllOnly(s[1..], c);
    }
  }
}
