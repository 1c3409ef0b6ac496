/**
 * The output parser of the whisper.cpp transcriber, `extractText` in
 * `electron/services/voiceTranscribeServiceWhisper.ts`: every line of the
 * form `[t --> t]  text` contributes its text, trimmed, and the pieces are
 * joined with single spaces.  The line pattern is the regular expression
 * `\[[\d:.]+\s+-->\s+[\d:.]+\]\s+(.+)`, searched anywhere in the line.
 */
module WhisperOutput {
  import opened Wrappers
  import Text

  /** `[\d:.]` */
  predicate IsTimeChar(c: char) {
    Text.IsDigit(c) || c == ':' || c == '.'
  }

  // ---- The line pattern ----------------------------------------------------------

  /** The end of the run of `[\d:.]` characters from `i`. */
  function TimeEnd(s: string, i: nat): (j: nat)
    requires i <= |s|
    ensures i <= j <= |s|
    decreases |s| - i
  {
    if i < |s| && IsTimeChar(s[i]) then TimeEnd(s, i + 1) else i
  }

  /** The first line terminator at or after `i`, or `|s|`: where `.+` stops. */
  function LineEnd(s: string, i: nat): (j: nat)
    requires i <= |s|
    ensures i <= j <= |s|
    decreases |s| - i
  {
    if i < |s| && !Text.IsLineTerminator(s[i]) then LineEnd(s, i + 1) else i
  }

  /** Where `(.+)` starts after the white space `s[g..h]` that `\s+` took
      greedily: the last position in `g+1..h` that `.` can match. */
  function Backtrack(s: string, g: nat, j: nat): (a: Option<nat>)
    requires g <= j <= |s|
    ensures a.Some? ==> g < a.value <= j && a.value < |s| && !Text.IsLineTerminator(s[a.value])
    decreases j - g
  {
    if j == g then None
    else if j < |s| && !Text.IsLineTerminator(s[j]) then Some(j)
    else Backtrack(s, g, j - 1)
  }

  /** The bounds of the captured text when the pattern matches at `p`. */
  function CaptureAt(s: string, p: nat): (r: Option<(nat, nat)>)
    ensures r.Some? ==> p < r.value.0 < r.value.1 <= |s|
  {
    if p < |s| && s[p] == '[' then AfterOpen(s, p + 1) else None
  }

  /** `-->` at `c`. */
  predicate IsArrow(s: string, c: nat) {
    c + 3 <= |s| && s[c] == '-' && s[c + 1] == '-' && s[c + 2] == '>'
  }

  /** `[\d:.]+\s+-->` after the `[` at `i - 1`. */
  function AfterOpen(s: string, i: nat): (r: Option<(nat, nat)>)
    requires i <= |s|
    ensures r.Some? ==> i < r.value.0 < r.value.1 <= |s|
  {
    var t := TimeEnd(s, i);
    var c := Text.SkipSpace(s, t);
    if t == i || c == t || !IsArrow(s, c) then None
    else AfterArrow(s, c + 3)
  }

  /** `\s+[\d:.]+\]` after the arrow ending at `e`. */
  function AfterArrow(s: string, e: nat): (r: Option<(nat, nat)>)
    requires e <= |s|
    ensures r.Some? ==> e < r.value.0 < r.value.1 <= |s|
  {
    var d := Text.SkipSpace(s, e);
    var f := TimeEnd(s, d);
    if d == e || f == d || f >= |s| || s[f] != ']' then None
    else AfterClose(s, f + 1)
  }

  /** `\s+(.+)` after the `]` at `g - 1`. */
  function AfterClose(s: string, g: nat): (r: Option<(nat, nat)>)
    requires g <= |s|
    ensures r.Some? ==> g < r.value.0 < r.value.1 <= |s|
  {
    match Backtrack(s, g, Text.SkipSpace(s, g))
    case None => None
    case Some(a) => Some((a, LineEnd(s, a)))
  }

  /** The first position in `from..n` that `ok` accepts. */
  function FirstWhere(n: nat, from: nat, ok: nat -> bool): (p: Option<nat>)
    ensures p.Some? ==> from <= p.value < n && ok(p.value)
    decreases n - from
  {
    if from >= n then None
    else if ok(from) then Some(from)
    else FirstWhere(n, from + 1, ok)
  }

  /** `line.match(...)` searches from the left: the first position where the
      pattern matches. */
  function FirstMatch(s: string, from: nat): (p: Option<nat>)
    ensures p.Some? ==> from <= p.value && CaptureAt(s, p.value).Some?
  {
    FirstWhere(|s|, from, (q: nat) => CaptureAt(s, q).Some?)
  }

  /** What a line contributes: the trimmed `match[1]`, if the line matches. */
  function Piece(line: string): Option<string> {
    match FirstMatch(line, 0)
    case None => None
    case Some(p) =>
      var (a, b) := CaptureAt(line, p).value;
      Some(Text.Trim(line[a..b]))
  }

  /** The values `f` gives for the elements of `xs`, in order, dropping
      the elements it gives nothing for. */
  function FilterMap<T, U>(xs: seq<T>, f: T -> Option<U>): seq<U>
    decreases |xs|
  {
    if xs == [] then []
    else FilterMap(xs[..|xs| - 1], f) + (if f(xs[|xs| - 1]).Some? then [f(xs[|xs| - 1]).value] else [])
  }

  /** The pieces of the lines, in order. */
  function Pieces(lines: seq<string>): seq<string> {
    FilterMap(lines, Piece)
  }

  /** What `extractText` returns. */
  function Extract(output: string): string {
    Text.Trim(Text.Join(Pieces(Text.Split(output, '\n')), " "))
  }

  method ExtractText(output: string) returns (r: string)
    ensures r == Extract(output)
  {
    var lines := Text.Split(output, '\n');
    var textLines: seq<string> := [];
    var i := 0;
    while i < |lines|
      invariant 0 <= i <= |lines|
      invariant textLines == Pieces(lines[..i])
    {
      var line := lines[i];
      assert lines[..i + 1][..i] == lines[..i];
      assert Pieces(lines[..i + 1]) == Pieces(lines[..i]) + (if Piece(line).Some? then [Piece(line).value] else []);
      var m := FirstMatch(line, 0);
      if m.Some? {
        var (a, b) := CaptureAt(line, m.value).value;
        textLines := textLines + [Text.Trim(line[a..b])];
      }
      i := i + 1;
    }
    assert lines[..i] == lines;
    r := Text.Trim(Text.Join(textLines, " "));
  }

  // ---- What the pattern means ------------------------------------------------------

  /** The pattern matched at `p` with `(.+)` capturing `s[a..b]`: `[`, a run
      of `[\d:.]` up to `t`, white space up to `c`, `-->`, white space up to
      `d`, a run of `[\d:.]` up to `f`, `]`, white space up to `a`, and then
      characters other than line terminators. */
  ghost predicate Shape(s: string, p: nat, t: nat, c: nat, d: nat, f: nat, a: nat, b: nat) {
    p < |s| && s[p] == '[' && OpenShape(s, p + 1, t, c, d, f, a, b)
  }

  /** `[\d:.]+\s+-->` from `i`, then the rest. */
  ghost predicate OpenShape(s: string, i: nat, t: nat, c: nat, d: nat, f: nat, a: nat, b: nat) {
    i < t < c && c + 3 <= |s|
    && (forall k :: i <= k < t ==> IsTimeChar(s[k]))
    && (forall k :: t <= k < c ==> Text.IsSpace(s[k]))
    && IsArrow(s, c)
    && CloseShape(s, c + 3, d, f, a, b)
  }

  /** `\s+[\d:.]+\]` from `e`, then the rest. */
  ghost predicate CloseShape(s: string, e: nat, d: nat, f: nat, a: nat, b: nat) {
    e < d < f < |s|
    && (forall k :: e <= k < d ==> Text.IsSpace(s[k]))
    && (forall k :: d <= k < f ==> IsTimeChar(s[k]))
    && s[f] == ']'
    && TailShape(s, f + 1, a, b)
  }

  /** `\s+(.+)` from `g`, capturing `s[a..b]`. */
  ghost predicate TailShape(s: string, g: nat, a: nat, b: nat) {
    g < a < b <= |s|
    && (forall k :: g <= k < a ==> Text.IsSpace(s[k]))
    && (forall k :: a <= k < b ==> !Text.IsLineTerminator(s[k]))
  }

  lemma {:induction false} TimeEndSpec(s: string, i: nat)
    requires i <= |s|
    ensures forall k :: i <= k < TimeEnd(s, i) ==> IsTimeChar(s[k])
    ensures TimeEnd(s, i) < |s| ==> !IsTimeChar(s[TimeEnd(s, i)])
    decreases |s| - i
  {
    if i < |s| && IsTimeChar(s[i]) {
      TimeEndSpec(s, i + 1);
    }
  }

  lemma {:induction false} LineEndSpec(s: string, i: nat)
    requires i <= |s|
    ensures forall k :: i <= k < LineEnd(s, i) ==> !Text.IsLineTerminator(s[k])
    ensures LineEnd(s, i) < |s| ==> Text.IsLineTerminator(s[LineEnd(s, i)])
    decreases |s| - i
  {
    if i < |s| && !Text.IsLineTerminator(s[i]) {
      LineEndSpec(s, i + 1);
    }
  }

  lemma {:induction false} TimeEndAt(s: string, i: nat, t: nat)
    requires i <= t <= |s| && (forall k :: i <= k < t ==> IsTimeChar(s[k]))
    requires t < |s| ==> !IsTimeChar(s[t])
    ensures TimeEnd(s, i) == t
    decreases t - i
  {
    if i < t {
      TimeEndAt(s, i + 1, t);
    }
  }

  lemma {:induction false} SkipSpaceAt(s: string, i: nat, t: nat)
    requires i <= t <= |s| && (forall k :: i <= k < t ==> Text.IsSpace(s[k]))
    requires t < |s| ==> !Text.IsSpace(s[t])
    ensures Text.SkipSpace(s, i) == t
    decreases t - i
  {
    if i < t {
      SkipSpaceAt(s, i + 1, t);
    }
  }

  lemma {:induction false} SkipSpaceBeyond(s: string, i: nat, a: nat)
    requires i <= a <= |s| && (forall k :: i <= k < a ==> Text.IsSpace(s[k]))
    ensures a <= Text.SkipSpace(s, i)
    decreases a - i
  {
    if i < a {
      SkipSpaceBeyond(s, i + 1, a);
    }
  }

  lemma {:induction false} BacktrackSpec(s: string, g: nat, j: nat)
    requires g <= j <= |s|
    ensures Backtrack(s, g, j).None? ==> forall k :: g < k <= j && k < |s| ==> Text.IsLineTerminator(s[k])
    ensures Backtrack(s, g, j).Some? ==>
              forall k :: Backtrack(s, g, j).value < k <= j && k < |s| ==> Text.IsLineTerminator(s[k])
    decreases j - g
  {
    if j > g && !(j < |s| && !Text.IsLineTerminator(s[j])) {
      BacktrackSpec(s, g, j - 1);
    }
  }

  lemma LineEndBeyond(s: string, a: nat, b: nat)
    requires a <= b <= |s| && forall k :: a <= k < b ==> !Text.IsLineTerminator(s[k])
    ensures b <= LineEnd(s, a)
  {
    LineEndSpec(s, a);
  }

  lemma NoTimeSpace(c: char)
    ensures IsTimeChar(c) ==> !Text.IsSpace(c)
    ensures c == '-' || c == ']' ==> !Text.IsSpace(c) && !IsTimeChar(c)
  {
  }

  lemma AfterCloseSound(s: string, g: nat)
    requires g <= |s|
    ensures AfterClose(s, g).Some? ==> TailShape(s, g, AfterClose(s, g).value.0, AfterClose(s, g).value.1)
  {
    if AfterClose(s, g).Some? {
      Text.SkipSpaceSpec(s, g);
      LineEndSpec(s, AfterClose(s, g).value.0);
    }
  }

  lemma AfterArrowSound(s: string, e: nat)
    requires e <= |s|
    ensures AfterArrow(s, e).Some? ==>
              var d := Text.SkipSpace(s, e);
              CloseShape(s, e, d, TimeEnd(s, d), AfterArrow(s, e).value.0, AfterArrow(s, e).value.1)
  {
    if AfterArrow(s, e).Some? {
      var d := Text.SkipSpace(s, e);
      Text.SkipSpaceSpec(s, e);
      TimeEndSpec(s, d);
      AfterCloseSound(s, TimeEnd(s, d) + 1);
    }
  }

  lemma AfterOpenSound(s: string, i: nat)
    requires i <= |s|
    ensures AfterOpen(s, i).Some? ==>
              var t := TimeEnd(s, i);
              var c := Text.SkipSpace(s, t);
              var d := Text.SkipSpace(s, c + 3);
              OpenShape(s, i, t, c, d, TimeEnd(s, d), AfterOpen(s, i).value.0, AfterOpen(s, i).value.1)
  {
    if AfterOpen(s, i).Some? {
      var t := TimeEnd(s, i);
      assert AfterOpen(s, i) == AfterArrow(s, Text.SkipSpace(s, t) + 3);
      TimeEndSpec(s, i);
      Text.SkipSpaceSpec(s, t);
      AfterArrowSound(s, Text.SkipSpace(s, t) + 3);
    }
  }

  /** When `CaptureAt` answers, the pattern matched there. */
  lemma CaptureSound(s: string, p: nat)
    ensures CaptureAt(s, p).Some? ==>
              exists t, c, d, f :: Shape(s, p, t, c, d, f, CaptureAt(s, p).value.0, CaptureAt(s, p).value.1)
  {
    if CaptureAt(s, p).Some? {
      AfterOpenSound(s, p + 1);
      var t := TimeEnd(s, p + 1);
      var c := Text.SkipSpace(s, t);
      var d := Text.SkipSpace(s, c + 3);
      assert Shape(s, p, t, c, d, TimeEnd(s, d), CaptureAt(s, p).value.0, CaptureAt(s, p).value.1);
    }
  }

  /** The capture `Backtrack` and `LineEnd` choose after `]` covers any other. */
  lemma AfterCloseComplete(s: string, g: nat, a: nat, b: nat)
    requires TailShape(s, g, a, b)
    ensures AfterClose(s, g).Some?
    ensures a <= AfterClose(s, g).value.0 && b <= AfterClose(s, g).value.1
  {
    var h := Text.SkipSpace(s, g);
    SkipSpaceBeyond(s, g, a);
    BacktrackSpec(s, g, h);
    assert !Text.IsLineTerminator(s[a]);
    var a' := Backtrack(s, g, h).value;
    if a' <= b {
      LineEndBeyond(s, a', b);
    }
  }

  lemma AfterArrowComplete(s: string, e: nat, d: nat, f: nat, a: nat, b: nat)
    requires CloseShape(s, e, d, f, a, b)
    ensures AfterArrow(s, e).Some?
    ensures a <= AfterArrow(s, e).value.0 && b <= AfterArrow(s, e).value.1
  {
    NoTimeSpace(s[d]);
    NoTimeSpace(s[f]);
    SkipSpaceAt(s, e, d);
    TimeEndAt(s, d, f);
    AfterCloseComplete(s, f + 1, a, b);
  }

  lemma AfterOpenComplete(s: string, i: nat, t: nat, c: nat, d: nat, f: nat, a: nat, b: nat)
    requires OpenShape(s, i, t, c, d, f, a, b)
    ensures AfterOpen(s, i).Some?
    ensures a <= AfterOpen(s, i).value.0 && b <= AfterOpen(s, i).value.1
  {
    NoTimeSpace(s[t]);
    NoTimeSpace(s[c]);
    TimeEndAt(s, i, t);
    SkipSpaceAt(s, t, c);
    assert AfterOpen(s, i) == AfterArrow(s, c + 3);
    AfterArrowComplete(s, c + 3, d, f, a, b);
  }

  /** Wherever the pattern can match, `CaptureAt` answers, and with the
      capture greedy matching takes: starting no earlier and ending no
      earlier than any other way to match. */
  lemma CaptureComplete(s: string, p: nat, t: nat, c: nat, d: nat, f: nat, a: nat, b: nat)
    requires Shape(s, p, t, c, d, f, a, b)
    ensures CaptureAt(s, p).Some?
    ensures a <= CaptureAt(s, p).value.0 && b <= CaptureAt(s, p).value.1
  {
    AfterOpenComplete(s, p + 1, t, c, d, f, a, b);
  }

  // ---- What a line and the output contribute ----------------------------------------

  /** `FirstMatch` is the leftmost match, and finds one whenever there is one. */
  lemma FirstMatchLeftmost(s: string, from: nat)
    ensures FirstMatch(s, from).Some? ==>
              forall q :: from <= q < FirstMatch(s, from).value ==> CaptureAt(s, q).None?
    ensures FirstMatch(s, from).None? ==> forall q :: from <= q ==> CaptureAt(s, q).None?
  {
    var ok := (q: nat) => CaptureAt(s, q).Some?;
    forall q | from <= q && (FirstMatch(s, from).None? || q < FirstMatch(s, from).value)
      ensures CaptureAt(s, q).None?
    {
      if q < |s| {
        FirstWhereSkips(|s|, from, q, ok);
        assert !ok(q);
      }
    }
  }

  /** Nothing before the first accepted position is accepted. */
  lemma {:induction false} FirstWhereSkips(n: nat, from: nat, q: nat, ok: nat -> bool)
    requires from <= q < n
    requires FirstWhere(n, from, ok).None? || q < FirstWhere(n, from, ok).value
    ensures !ok(q)
    decreases q - from
  {
    if from < q {
      FirstWhereSkips(n, from + 1, q, ok);
    }
  }

  /** A line contributes exactly when the pattern matches somewhere in it. */
  lemma PieceIffMatch(line: string)
    ensures Piece(line).Some? <==> exists p :: CaptureAt(line, p).Some?
  {
    FirstMatchLeftmost(line, 0);
  }

  /** A line without `[` contributes nothing. */
  lemma PieceNeedsBracket(line: string)
    requires '[' !in line
    ensures Piece(line).None?
  {
  }

  /** What a line contributes has no white space at either end. */
  lemma PieceTrimmed(line: string)
    requires Piece(line).Some?
    ensures IsTrimmed(Piece(line).value)
  {
    var p := FirstMatch(line, 0).value;
    var (a, b) := CaptureAt(line, p).value;
    Text.TrimSpec(line[a..b]);
  }

  /** No white space at either end. */
  predicate IsTrimmed(t: string) {
    t == [] || (!Text.IsSpace(t[0]) && !Text.IsSpace(t[|t| - 1]))
  }

  /** At most one value per element. */
  lemma {:induction false} FilterMapLength<T, U>(xs: seq<T>, f: T -> Option<U>)
    ensures |FilterMap(xs, f)| <= |xs|
    decreases |xs|
  {
    if xs != [] {
      FilterMapLength(xs[..|xs| - 1], f);
    }
  }

  /** Every value has a property that every value of `f` has. */
  lemma {:induction false} FilterMapKeeps<T, U>(xs: seq<T>, f: T -> Option<U>, ok: U -> bool)
    requires forall i :: 0 <= i < |xs| && f(xs[i]).Some? ==> ok(f(xs[i]).value)
    ensures forall j :: 0 <= j < |FilterMap(xs, f)| ==> ok(FilterMap(xs, f)[j])
    decreases |xs|
  {
    if xs != [] {
      var init := xs[..|xs| - 1];
      assert forall i :: 0 <= i < |init| ==> init[i] == xs[i];
      FilterMapKeeps(init, f, ok);
    }
  }

  /** There are no values exactly when `f` gives nothing for every element. */
  lemma {:induction false} FilterMapEmpty<T, U>(xs: seq<T>, f: T -> Option<U>)
    ensures FilterMap(xs, f) == [] <==> forall i :: 0 <= i < |xs| ==> f(xs[i]).None?
    decreases |xs|
  {
    if xs != [] {
      var init := xs[..|xs| - 1];
      FilterMapEmpty(init, f);
      assert forall i :: 0 <= i < |init| ==> init[i] == xs[i];
    }
  }

  /** At most one piece per line, every piece trimmed, and no pieces exactly
      when no line matches. */
  lemma PiecesSpec(lines: seq<string>)
    ensures |Pieces(lines)| <= |lines|
    ensures forall j :: 0 <= j < |Pieces(lines)| ==> IsTrimmed(Pieces(lines)[j])
    ensures Pieces(lines) == [] <==> forall i :: 0 <= i < |lines| ==> Piece(lines[i]).None?
  {
    FilterMapLength(lines, Piece);
    forall i | 0 <= i < |lines| && Piece(lines[i]).Some?
      ensures IsTrimmed(Piece(lines[i]).value)
    {
      PieceTrimmed(lines[i]);
    }
    FilterMapKeeps(lines, Piece, IsTrimmed);
    FilterMapEmpty(lines, Piece);
  }

  /** Every line of the output is a piece of the text. */
  lemma {:induction false} JoinHolds(parts: seq<string>, sep: string, i: nat, k: nat)
    requires i < |parts| && k < |parts[i]|
    ensures parts[i][k] in Text.Join(parts, sep)
    decreases |parts|
  {
    if |parts| > 1 {
      if i == 0 {
        assert Text.Join(parts, sep)[k] == parts[0][k];
      } else {
        JoinHolds(parts[1..], sep, i - 1, k);
        var rest := Text.Join(parts[1..], sep);
        var m :| 0 <= m < |rest| && rest[m] == parts[i][k];
        assert Text.Join(parts, sep)[|parts[0]| + |sep| + m] == rest[m];
      }
    }
  }

  /** Joining non-empty trimmed parts leaves nothing for the last `trim()`. */
  lemma {:induction false} JoinTrimmed(parts: seq<string>)
    requires forall j :: 0 <= j < |parts| ==> parts[j] != [] && IsTrimmed(parts[j])
    ensures IsTrimmed(Text.Join(parts, " "))
    ensures parts != [] ==>
              (Text.Join(parts, " ") != []
               && Text.Join(parts, " ")[0] == parts[0][0]
               && Text.Join(parts, " ")[|Text.Join(parts, " ")| - 1] == parts[|parts| - 1][|parts[|parts| - 1]| - 1])
    decreases |parts|
  {
    if |parts| > 1 {
      JoinTrimmed(parts[1..]);
      var rest := Text.Join(parts[1..], " ");
      assert Text.Join(parts, " ") == parts[0] + " " + rest;
    }
  }

  /** No matching line, no text. */
  lemma ExtractNothing(output: string)
    requires forall i :: 0 <= i < |Text.Split(output, '\n')| ==> Piece(Text.Split(output, '\n')[i]).None?
    ensures Extract(output) == ""
  {
    PiecesSpec(Text.Split(output, '\n'));
  }

  /** An output without `[` has no text. */
  lemma ExtractWithoutBracket(output: string)
    requires '[' !in output
    ensures Extract(output) == ""
  {
    var lines := Text.Split(output, '\n');
    Text.JoinSplit(output, '\n');
    forall i | 0 <= i < |lines|
      ensures Piece(lines[i]).None?
    {
      if '[' in lines[i] {
        var k :| 0 <= k < |lines[i]| && lines[i][k] == '[';
        JoinHolds(lines, "\n", i, k);
      }
      PieceNeedsBracket(lines[i]);
    }
    ExtractNothing(output);
  }

  /** The text never starts or ends with white space. */
  lemma ExtractTrimmed(output: string)
    ensures IsTrimmed(Extract(output))
  {
    Text.TrimSpec(Text.Join(Pieces(Text.Split(output, '\n')), " "));
  }

  /** When every piece is non-empty, the text is the pieces joined with single
      spaces, and the last `trim()` changes nothing. */
  lemma ExtractJoins(output: string)
    requires forall j :: 0 <= j < |Pieces(Text.Split(output, '\n'))| ==> Pieces(Text.Split(output, '\n'))[j] != []
    ensures Extract(output) == Text.Join(Pieces(Text.Split(output, '\n')), " ")
  {
    var pieces := Pieces(Text.Split(output, '\n'));
    PiecesSpec(Text.Split(output, '\n'));
    JoinTrimmed(pieces);
    Text.TrimOfTrimmed(Text.Join(pieces, " "));
  }
}
