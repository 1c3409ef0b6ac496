/**
 * The WeChat emoji renderer of `src/utils/wechatEmoji.tsx`: the text is
 * scanned for bracket tokens `[name]` with the global pattern `\[([^\]]+)\]`,
 * and each token whose name is a known emoji becomes an image, the text
 * around it being kept as text parts.  Which names are emoji and where their
 * pictures live come from the emoji package and are parameters here.
 */
module WechatEmoji {
  import opened Wrappers
  import Text

  datatype Part = Text(text: string) | Image(name: string, src: string)

  /** What `parseWechatEmoji` returns: the text itself or a list of parts. */
  datatype Rendered = Plain(text: string) | Parts(parts: seq<Part>)

  /** The `alt` text of an emoji image. */
  function Alt(name: string): string {
    "[" + name + "]"
  }

  // ---- The token pattern ---------------------------------------------------------

  /** The first `]` at or after `i`. */
  function FirstClose(s: string, i: nat): (q: Option<nat>)
    ensures q.Some? ==> i <= q.value < |s| && s[q.value] == ']'
    decreases |s| - i
  {
    if i >= |s| then None
    else if s[i] == ']' then Some(i)
    else FirstClose(s, i + 1)
  }

  lemma {:induction false} FirstCloseFirst(s: string, i: nat, j: nat)
    requires i <= j < |s| && s[j] == ']'
    ensures FirstClose(s, i).Some? && FirstClose(s, i).value <= j
    decreases j - i
  {
    if s[i] != ']' {
      FirstCloseFirst(s, i + 1, j);
    }
  }

  /** The end of the token the pattern matches at `p`: a `[`, one or more
      characters other than `]`, and the first `]` after them. */
  function TokenAt(s: string, p: nat): (e: Option<nat>)
    ensures e.Some? ==> p + 3 <= e.value <= |s| && s[p] == '[' && s[e.value - 1] == ']'
  {
    if p < |s| && s[p] == '[' then
      match FirstClose(s, p + 1)
      case Some(q) => if q > p + 1 then Some(q + 1) else None
      case None => None
    else None
  }

  /** The name of a token holds no `]`. */
  lemma TokenName(s: string, p: nat)
    ensures TokenAt(s, p).Some? ==> forall j :: p < j < TokenAt(s, p).value - 1 ==> s[j] != ']'
  {
    FirstCloseAfter(s, p + 1);
  }

  lemma FirstCloseAfter(s: string, i: nat)
    ensures FirstClose(s, i).Some? ==> forall j :: i <= j < FirstClose(s, i).value ==> s[j] != ']'
  {
    if FirstClose(s, i).Some? {
      forall j | i <= j < FirstClose(s, i).value
        ensures s[j] != ']'
      {
        if s[j] == ']' {
          FirstCloseFirst(s, i, j);
        }
      }
    }
  }

  /** `exec` of the global pattern from `from`: the leftmost token at or
      after `from`, as its start and end. */
  function NextMatch(s: string, from: nat): (m: Option<(nat, nat)>)
    ensures m.Some? ==> from <= m.value.0 && TokenAt(s, m.value.0) == Some(m.value.1)
    decreases |s| - from
  {
    if from >= |s| then None
    else if TokenAt(s, from).Some? then Some((from, TokenAt(s, from).value))
    else NextMatch(s, from + 1)
  }

  /** `match[1]`: the name between the brackets. */
  function NameOf(s: string, p: nat, e: nat): string
    requires p + 3 <= e <= |s|
  {
    s[p + 1..e - 1]
  }

  // ---- Image sources -------------------------------------------------------------

  /** `getEmojiUrl`: only for emoji names whose package path is truthy. */
  function EmojiUrl(name: string, hasEmoji: string -> bool, emojiPath: string -> Option<string>): (u: Option<string>)
    ensures u.Some? <==> hasEmoji(name) && emojiPath(name).Some? && emojiPath(name).value != ""
    ensures u.Some? ==> u.value == "./wechat-emojis/" + Text.ReplaceFirst(emojiPath(name).value, "assets/", "")
  {
    if !hasEmoji(name) then None
    else
      var path := emojiPath(name);
      if path.None? || path.value == "" then None
      else Some("./wechat-emojis/" + Text.ReplaceFirst(path.value, "assets/", ""))
  }

  // ---- The scan ------------------------------------------------------------------

  /** The parts the loop of `parseWechatEmoji` pushes from the point where the
      pattern resumes at `from`, the text before `last` being already
      emitted. */
  function Scan(s: string, from: nat, last: nat, hasEmoji: string -> bool, emojiPath: string -> Option<string>): seq<Part>
    requires last <= from <= |s|
    decreases |s| - from
  {
    match NextMatch(s, from)
    case None => if last < |s| then [Text(s[last..])] else []
    case Some((p, e)) =>
      if hasEmoji(NameOf(s, p, e)) then Emitted(s, last, p, e, hasEmoji, emojiPath) + Scan(s, e, e, hasEmoji, emojiPath)
      else Scan(s, e, last, hasEmoji, emojiPath)
  }

  /** What an emoji token at `p`..`e` pushes: the text since `last`, when
      there is any, then the image, or the token's own text when the image
      has no source. */
  function Emitted(s: string, last: nat, p: nat, e: nat, hasEmoji: string -> bool, emojiPath: string -> Option<string>): seq<Part>
    requires last <= p && p + 3 <= e <= |s|
  {
    var name := NameOf(s, p, e);
    var before := if p > last then [Text(s[last..p])] else [];
    var url := EmojiUrl(name, hasEmoji, emojiPath);
    before + [if url.Some? then Image(name, url.value) else Text(s[p..e])]
  }

  lemma ScanEmoji(s: string, from: nat, last: nat, p: nat, e: nat, hasEmoji: string -> bool, emojiPath: string -> Option<string>)
    requires last <= from <= |s| && NextMatch(s, from) == Some((p, e)) && hasEmoji(NameOf(s, p, e))
    ensures Scan(s, from, last, hasEmoji, emojiPath) == Emitted(s, last, p, e, hasEmoji, emojiPath) + Scan(s, e, e, hasEmoji, emojiPath)
  {
  }

  lemma ScanSkip(s: string, from: nat, last: nat, p: nat, e: nat, hasEmoji: string -> bool, emojiPath: string -> Option<string>)
    requires last <= from <= |s| && NextMatch(s, from) == Some((p, e)) && !hasEmoji(NameOf(s, p, e))
    ensures Scan(s, from, last, hasEmoji, emojiPath) == Scan(s, e, last, hasEmoji, emojiPath)
  {
  }

  lemma ScanEnd(s: string, from: nat, last: nat, hasEmoji: string -> bool, emojiPath: string -> Option<string>)
    requires last <= from <= |s| && NextMatch(s, from) == None
    ensures Scan(s, from, last, hasEmoji, emojiPath) == if last < |s| then [Text(s[last..])] else []
  {
  }

  lemma Reassociate(a: seq<Part>, b: seq<Part>, c: seq<Part>)
    ensures (a + b) + c == a + (b + c)
  {
  }

  /** `parseWechatEmoji`. */
  function Parse(text: string, hasEmoji: string -> bool, emojiPath: string -> Option<string>): Rendered {
    if text == "" then Plain(text)
    else
      var parts := Scan(text, 0, 0, hasEmoji, emojiPath);
      if |parts| > 0 then Parts(parts) else Plain(text)
  }

  /** Does a token at or after `from` name an emoji? */
  function HasFrom(s: string, from: nat, hasEmoji: string -> bool): bool
    requires from <= |s|
    decreases |s| - from
  {
    match NextMatch(s, from)
    case None => false
    case Some((p, e)) => hasEmoji(NameOf(s, p, e)) || HasFrom(s, e, hasEmoji)
  }

  // ---- The methods ---------------------------------------------------------------

  method ParseWechatEmoji(text: string, hasEmoji: string -> bool, emojiPath: string -> Option<string>)
    returns (r: Rendered)
    ensures r == Parse(text, hasEmoji, emojiPath)
  {
    if text == "" {
      return Plain(text);
    }
    var parts: seq<Part> := [];
    var lastIndex: nat := 0;
    var patternIndex: nat := 0;
    var m := NextMatch(text, patternIndex);
    while m.Some?
      invariant lastIndex <= patternIndex <= |text|
      invariant m == NextMatch(text, patternIndex)
      invariant parts + Scan(text, patternIndex, lastIndex, hasEmoji, emojiPath)
                == Scan(text, 0, 0, hasEmoji, emojiPath)
      decreases |text| - patternIndex
    {
      var (p, e) := m.value;
      parts, lastIndex := Step(text, parts, lastIndex, patternIndex, p, e, hasEmoji, emojiPath);
      patternIndex := e;
      m := NextMatch(text, patternIndex);
    }
    ScanEnd(text, patternIndex, lastIndex, hasEmoji, emojiPath);
    if lastIndex < |text| {
      parts := parts + [Text(text[lastIndex..])];
    }
    r := if |parts| > 0 then Parts(parts) else Plain(text);
  }

  /** One round of the loop of `parseWechatEmoji`, for the token at `p`..`e`
      that `exec` found from `patternIndex`. */
  method Step(text: string, parts: seq<Part>, lastIndex: nat, patternIndex: nat, p: nat, e: nat,
              hasEmoji: string -> bool, emojiPath: string -> Option<string>) returns (parts': seq<Part>, lastIndex': nat)
    requires lastIndex <= patternIndex <= |text| && NextMatch(text, patternIndex) == Some((p, e))
    ensures lastIndex' <= e
    ensures parts' + Scan(text, e, lastIndex', hasEmoji, emojiPath)
            == parts + Scan(text, patternIndex, lastIndex, hasEmoji, emojiPath)
  {
    var name := NameOf(text, p, e);
    if hasEmoji(name) {
      parts' := PushEmoji(parts, text, lastIndex, p, e, hasEmoji, emojiPath);
      lastIndex' := e;
      ScanEmoji(text, patternIndex, lastIndex, p, e, hasEmoji, emojiPath);
      Reassociate(parts, Emitted(text, lastIndex, p, e, hasEmoji, emojiPath), Scan(text, e, e, hasEmoji, emojiPath));
    } else {
      parts', lastIndex' := parts, lastIndex;
      ScanSkip(text, patternIndex, lastIndex, p, e, hasEmoji, emojiPath);
    }
  }

  /** The pushes for an emoji token: the text since `lastIndex`, then the
      image or, without a source, the token's text. */
  method PushEmoji(parts: seq<Part>, text: string, lastIndex: nat, p: nat, e: nat,
                   hasEmoji: string -> bool, emojiPath: string -> Option<string>) returns (pushed: seq<Part>)
    requires lastIndex <= p && p + 3 <= e <= |text|
    ensures pushed == parts + Emitted(text, lastIndex, p, e, hasEmoji, emojiPath)
  {
    pushed := parts;
    if p > lastIndex {
      pushed := pushed + [Text(text[lastIndex..p])];
    }
    var name := NameOf(text, p, e);
    var url := EmojiUrl(name, hasEmoji, emojiPath);
    if url.Some? {
      pushed := pushed + [Image(name, url.value)];
    } else {
      pushed := pushed + [Text(text[p..e])];
    }
  }

  method HasWechatEmoji(text: string, hasEmoji: string -> bool) returns (r: bool)
    ensures r == (text != "" && HasFrom(text, 0, hasEmoji))
  {
    if text == "" {
      return false;
    }
    var patternIndex: nat := 0;
    var m := NextMatch(text, patternIndex);
    while m.Some?
      invariant patternIndex <= |text|
      invariant m == NextMatch(text, patternIndex)
      invariant HasFrom(text, 0, hasEmoji) == HasFrom(text, patternIndex, hasEmoji)
      decreases |text| - patternIndex
    {
      var (p, e) := m.value;
      if hasEmoji(NameOf(text, p, e)) {
        return true;
      }
      patternIndex := e;
      m := NextMatch(text, patternIndex);
    }
    r := false;
  }

  // ---- What the pattern matches ------------------------------------------------------

  /** A token at `p` ending at `e` is exactly a `[`, one or more characters
      other than `]`, and a `]`. */
  lemma TokenAtIff(s: string, p: nat, e: nat)
    ensures TokenAt(s, p) == Some(e) <==>
              p + 3 <= e <= |s| && s[p] == '[' && s[e - 1] == ']' && forall j :: p < j < e - 1 ==> s[j] != ']'
  {
    TokenName(s, p);
    if p + 3 <= e <= |s| && s[p] == '[' && s[e - 1] == ']' && forall j :: p < j < e - 1 ==> s[j] != ']' {
      FirstCloseFirst(s, p + 1, e - 1);
      FirstCloseAfter(s, p + 1);
    }
  }

  /** `exec` finds the leftmost token: there is none between `from` and the
      one it returns, nor anywhere after `from` when it returns none. */
  lemma {:induction false} NextMatchLeftmost(s: string, from: nat)
    ensures NextMatch(s, from).Some? ==> forall j :: from <= j < NextMatch(s, from).value.0 ==> TokenAt(s, j).None?
    ensures NextMatch(s, from).None? ==> forall j :: from <= j < |s| ==> TokenAt(s, j).None?
    decreases |s| - from
  {
    if from < |s| && TokenAt(s, from).None? {
      NextMatchLeftmost(s, from + 1);
    }
  }

  // ---- What the parts add up to ----------------------------------------------------

  /** The text a part stands for: an image stands for its `alt` text. */
  function Shown(part: Part): string {
    match part
    case Text(t) => t
    case Image(name, _) => Alt(name)
  }

  function Flatten(parts: seq<Part>): string
    decreases |parts|
  {
    if parts == [] then "" else Shown(parts[0]) + Flatten(parts[1..])
  }

  lemma {:induction false} FlattenAppend(a: seq<Part>, b: seq<Part>)
    ensures Flatten(a + b) == Flatten(a) + Flatten(b)
    decreases |a|
  {
    if a == [] {
      assert a + b == b;
    } else {
      assert (a + b)[1..] == a[1..] + b;
      FlattenAppend(a[1..], b);
    }
  }

  lemma SliceJoin(s: string, a: nat, b: nat)
    requires a <= b <= |s|
    ensures s[a..b] + s[b..] == s[a..]
  {
  }

  lemma EmittedShows(s: string, last: nat, p: nat, e: nat, hasEmoji: string -> bool, emojiPath: string -> Option<string>)
    requires last <= p && p + 3 <= e <= |s| && s[p] == '[' && s[e - 1] == ']'
    ensures Flatten(Emitted(s, last, p, e, hasEmoji, emojiPath)) == s[last..e]
  {
    var name := NameOf(s, p, e);
    assert Alt(name) == s[p..e];
    var before: seq<Part> := if p > last then [Text(s[last..p])] else [];
    var url := EmojiUrl(name, hasEmoji, emojiPath);
    var emoji := if url.Some? then Image(name, url.value) else Text(s[p..e]);
    assert Emitted(s, last, p, e, hasEmoji, emojiPath) == before + [emoji];
    FlattenAppend(before, [emoji]);
    assert Flatten(before) == s[last..p];
    assert Flatten([emoji]) == s[p..e];
    assert s[last..p] + s[p..e] == s[last..e];
  }

  /** The parts pushed from `from` on spell out the text from `last` on. */
  lemma {:induction false} ScanShows(s: string, from: nat, last: nat, hasEmoji: string -> bool, emojiPath: string -> Option<string>)
    requires last <= from <= |s|
    ensures Flatten(Scan(s, from, last, hasEmoji, emojiPath)) == s[last..]
    decreases |s| - from
  {
    match NextMatch(s, from)
    case None =>
      ScanEnd(s, from, last, hasEmoji, emojiPath);
      if last < |s| {
        assert Flatten([Text(s[last..])]) == s[last..] + Flatten([]);
      }
    case Some((p, e)) =>
      if hasEmoji(NameOf(s, p, e)) {
        var emitted := Emitted(s, last, p, e, hasEmoji, emojiPath);
        var rest := Scan(s, e, e, hasEmoji, emojiPath);
        ScanEmoji(s, from, last, p, e, hasEmoji, emojiPath);
        ScanShows(s, e, e, hasEmoji, emojiPath);
        EmittedShows(s, last, p, e, hasEmoji, emojiPath);
        FlattenAppend(emitted, rest);
        SliceJoin(s[last..], 0, e - last);
        assert s[last..][..e - last] == s[last..e] && s[last..][e - last..] == s[e..];
      } else {
        ScanSkip(s, from, last, p, e, hasEmoji, emojiPath);
        ScanShows(s, e, last, hasEmoji, emojiPath);
      }
  }

  /** No text part is empty, and every image is a known emoji shown with the
      picture the package gives for it. */
  ghost predicate WellFormed(parts: seq<Part>, hasEmoji: string -> bool, emojiPath: string -> Option<string>) {
    forall i :: 0 <= i < |parts| ==>
      (parts[i].Text? ==> parts[i].text != "") &&
      (parts[i].Image? ==> hasEmoji(parts[i].name) && EmojiUrl(parts[i].name, hasEmoji, emojiPath) == Some(parts[i].src))
  }

  lemma {:induction false} ScanWellFormed(s: string, from: nat, last: nat, hasEmoji: string -> bool, emojiPath: string -> Option<string>)
    requires last <= from <= |s|
    ensures WellFormed(Scan(s, from, last, hasEmoji, emojiPath), hasEmoji, emojiPath)
    decreases |s| - from
  {
    match NextMatch(s, from)
    case None =>
      ScanEnd(s, from, last, hasEmoji, emojiPath);
    case Some((p, e)) =>
      if hasEmoji(NameOf(s, p, e)) {
        ScanEmoji(s, from, last, p, e, hasEmoji, emojiPath);
        ScanWellFormed(s, e, e, hasEmoji, emojiPath);
        assert WellFormed(Emitted(s, last, p, e, hasEmoji, emojiPath), hasEmoji, emojiPath);
        WellFormedAppend(Emitted(s, last, p, e, hasEmoji, emojiPath), Scan(s, e, e, hasEmoji, emojiPath), hasEmoji, emojiPath);
      } else {
        ScanSkip(s, from, last, p, e, hasEmoji, emojiPath);
        ScanWellFormed(s, e, last, hasEmoji, emojiPath);
      }
  }

  lemma WellFormedAppend(a: seq<Part>, b: seq<Part>, hasEmoji: string -> bool, emojiPath: string -> Option<string>)
    requires WellFormed(a, hasEmoji, emojiPath) && WellFormed(b, hasEmoji, emojiPath)
    ensures WellFormed(a + b, hasEmoji, emojiPath)
  {
    forall i | 0 <= i < |a + b|
      ensures (a + b)[i] == if i < |a| then a[i] else b[i - |a|]
    {
    }
  }

  /** `parseWechatEmoji` returns empty text unchanged, and for any other text
      a non-empty list of well-formed parts that spells the text out again. */
  lemma ParseShows(text: string, hasEmoji: string -> bool, emojiPath: string -> Option<string>)
    ensures text == "" ==> Parse(text, hasEmoji, emojiPath) == Plain(text)
    ensures text != "" ==> Parse(text, hasEmoji, emojiPath).Parts?
    ensures Parse(text, hasEmoji, emojiPath).Parts? ==>
              var parts := Parse(text, hasEmoji, emojiPath).parts;
              |parts| > 0 && Flatten(parts) == text && WellFormed(parts, hasEmoji, emojiPath)
  {
    if text != "" {
      ScanShows(text, 0, 0, hasEmoji, emojiPath);
      ScanWellFormed(text, 0, 0, hasEmoji, emojiPath);
      assert text[0..] == text;
    }
  }

  // ---- `hasWechatEmoji` and the images -----------------------------------------------

  predicate HasImage(parts: seq<Part>) {
    exists i :: 0 <= i < |parts| && parts[i].Image?
  }

  lemma HasImageAppend(a: seq<Part>, b: seq<Part>)
    ensures HasImage(a + b) <==> HasImage(a) || HasImage(b)
  {
    if HasImage(a + b) {
      var i :| 0 <= i < |a + b| && (a + b)[i].Image?;
      if i >= |a| {
        assert b[i - |a|].Image?;
      }
    }
    if HasImage(b) {
      var i :| 0 <= i < |b| && b[i].Image?;
      assert (a + b)[|a| + i].Image?;
    }
    if HasImage(a) {
      var i :| 0 <= i < |a| && a[i].Image?;
      assert (a + b)[i].Image?;
    }
  }

  /** Every image comes from an emoji token; when the package gives a picture
      for every emoji name, every emoji token gives an image. */
  lemma {:induction false} ScanImages(s: string, from: nat, last: nat, hasEmoji: string -> bool, emojiPath: string -> Option<string>)
    requires last <= from <= |s|
    ensures HasImage(Scan(s, from, last, hasEmoji, emojiPath)) ==> HasFrom(s, from, hasEmoji)
    ensures ((forall n :: hasEmoji(n) ==> EmojiUrl(n, hasEmoji, emojiPath).Some?) && HasFrom(s, from, hasEmoji))
            ==> HasImage(Scan(s, from, last, hasEmoji, emojiPath))
    decreases |s| - from
  {
    match NextMatch(s, from)
    case None =>
      ScanEnd(s, from, last, hasEmoji, emojiPath);
      assert !HasImage(Scan(s, from, last, hasEmoji, emojiPath));
    case Some((p, e)) =>
      if hasEmoji(NameOf(s, p, e)) {
        ScanEmoji(s, from, last, p, e, hasEmoji, emojiPath);
        var emitted := Emitted(s, last, p, e, hasEmoji, emojiPath);
        HasImageAppend(emitted, Scan(s, e, e, hasEmoji, emojiPath));
        ScanImages(s, e, e, hasEmoji, emojiPath);
        if EmojiUrl(NameOf(s, p, e), hasEmoji, emojiPath).Some? {
          assert emitted[|emitted| - 1].Image?;
        }
      } else {
        ScanSkip(s, from, last, p, e, hasEmoji, emojiPath);
        ScanImages(s, e, last, hasEmoji, emojiPath);
      }
  }

  /** `hasWechatEmoji` holds when `parseWechatEmoji` draws an image, and the
      converse holds when every emoji name has a picture. */
  lemma HasEmojiIffImage(text: string, hasEmoji: string -> bool, emojiPath: string -> Option<string>)
    ensures var r := Parse(text, hasEmoji, emojiPath);
            r.Parts? && HasImage(r.parts) ==> text != "" && HasFrom(text, 0, hasEmoji)
    ensures ((forall n :: hasEmoji(n) ==> EmojiUrl(n, hasEmoji, emojiPath).Some?) && text != "" && HasFrom(text, 0, hasEmoji))
            ==> var r := Parse(text, hasEmoji, emojiPath); r.Parts? && HasImage(r.parts)
  {
    if text != "" {
      ScanImages(text, 0, 0, hasEmoji, emojiPath);
      ParseShows(text, hasEmoji, emojiPath);
    }
  }
}
